/** Keywords in any order: what the matcher of command.c does not depend on, and when it does. */
module CommandOrder {
  import opened Wrappers
  import opened CommandSpec

  // ---- which keyword a head typed in full stands for

  /** A head that is compared letter by letter. */
  predicate Literal(s: string) {
    && s != "" && !IsVararg(s) && !IsRange(s) && !IsOption(s) && !IsVariable(s)
    && s != "X:X::X:X" && s != "X:X::X:X/M"
  }

  /** Distinct literal heads, no more than the mask has bits for. */
  ghost predicate Heads(groups: seq<Group>) {
    && |groups| <= MAX_KEYWORDS
    && (forall i :: 0 <= i < |groups| ==> Literal(groups[i].head))
    && forall i, j :: 0 <= i < j < |groups| ==> groups[i].head != groups[j].head
  }

  /** Head j is longer than head k and starts with it. */
  predicate Extends(groups: seq<Group>, j: nat, k: nat)
    requires j < |groups| && k < |groups|
  {
    j != k && groups[k].head <= groups[j].head
  }

  predicate Rival(filter: FilterType, groups: seq<Group>, k: nat, mask: set<nat>, j: nat)
    requires j < |groups| && k < |groups|
  {
    filter == FILTER_RELAXED && j !in mask && Extends(groups, j, k)
  }

  /** The unseen heads among the first n that start with head k. */
  function Rivals(filter: FilterType, groups: seq<Group>, k: nat, mask: set<nat>, n: nat): nat
    requires n <= |groups| && k < |groups|
  {
    if n == 0 then 0
    else Rivals(filter, groups, k, mask, n - 1) + if Rival(filter, groups, k, mask, n - 1) then 1 else 0
  }

  lemma {:induction false} RivalsCount(filter: FilterType, groups: seq<Group>, k: nat, mask: set<nat>, n: nat)
    requires n <= |groups| && k < |groups|
    ensures Rivals(filter, groups, k, mask, n) >= 1 <==> exists j: nat :: j < n && Rival(filter, groups, k, mask, j)
    ensures Rivals(filter, groups, k, mask, n) >= 2
            <==> exists i: nat, j: nat ::
                   i < j < n && Rival(filter, groups, k, mask, i) && Rival(filter, groups, k, mask, j)
  {
    if n > 0 {
      RivalsCount(filter, groups, k, mask, n - 1);
    }
  }

  /** A head typed in full matches itself exactly, longer ones partly if the filter is relaxed, and no other. */
  lemma HeadMatches(m: Matchers, filter: FilterType, groups: seq<Group>, k: nat, j: nat)
    requires Heads(groups) && k < |groups| && j < |groups|
    ensures WordMatch(m, filter, groups[j].head, Some(groups[k].head))
            == if j == k then EXACT_MATCH
               else if filter == FILTER_RELAXED && Extends(groups, j, k) then PARTLY_MATCH else NO_MATCH
  {
    var str, w := groups[j].head, groups[k].head;
    assert Literal(str) && Literal(w);
    if j == k {
      assert w <= str;
    }
  }

  /** What the word of head k is taken for when the keywords in the mask were seen. */
  function ReadsAs(m: Matchers, filter: FilterType, groups: seq<Group>, k: nat, mask: set<nat>): ScanOut
    requires k < |groups|
  {
    Scan(Env(m, filter, [], 0), groups, Some(groups[k].head), mask, false, 0, NO_MATCH, NotFound)
  }

  /** The scan up to keyword i: unbroken without rivals, holding the only one, or broken off at the second. */
  lemma {:induction false} ScanReaches(e: Env, groups: seq<Group>, k: nat, mask: set<nat>, i: nat)
    requires Heads(groups) && k < |groups| && i <= |groups| && (k !in mask ==> i <= k)
    ensures var w := Some(groups[k].head);
            var r := Scan(e, groups, w, mask, false, 0, NO_MATCH, NotFound);
            var c := Rivals(e.filter, groups, k, mask, i);
            && (c == 0 ==> r == Scan(e, groups, w, mask, false, i, NO_MATCH, NotFound))
            && (c == 1 ==> exists j: nat :: j < i && r == Scan(e, groups, w, mask, false, i, PARTLY_MATCH, Found(j)))
            && (c >= 2 ==> r == Ambiguous)
  {
    hide WordMatch, Heads;
    if i > 0 {
      ScanReaches(e, groups, k, mask, i - 1);
      HeadMatches(e.m, e.filter, groups, k, i - 1);
      var w := Some(groups[k].head);
      var r := Scan(e, groups, w, mask, false, 0, NO_MATCH, NotFound);
      if Rivals(e.filter, groups, k, mask, i - 1) == 1 {
        var j: nat :| j < i - 1 && r == Scan(e, groups, w, mask, false, i - 1, PARTLY_MATCH, Found(j));
        assert Rivals(e.filter, groups, k, mask, i) == 1 ==>
                 r == Scan(e, groups, w, mask, false, i, PARTLY_MATCH, Found(j));
      } else if Rivals(e.filter, groups, k, mask, i - 1) == 0 {
        assert Rivals(e.filter, groups, k, mask, i) == 1 ==>
                 r == Scan(e, groups, w, mask, false, i, PARTLY_MATCH, Found(i - 1));
      }
    }
  }

  lemma {:induction false} ScanKeeps(e: Env, groups: seq<Group>, k: nat, mask: set<nat>, i: nat)
    requires Heads(groups) && k < i <= |groups|
    ensures Scan(e, groups, Some(groups[k].head), mask, false, i, EXACT_MATCH, Found(k)) == Found(k)
    decreases |groups| - i
  {
    if i < |groups| {
      HeadMatches(e.m, e.filter, groups, k, i);
      ScanKeeps(e, groups, k, mask, i + 1);
    }
  }

  /** An unseen head typed in full is found if at most one earlier unseen head starts with it; a seen one is
      refused if no unseen head does. */
  lemma ScanTyped(e: Env, groups: seq<Group>, k: nat, mask: set<nat>)
    requires Heads(groups) && k < |groups|
    ensures var r := Scan(e, groups, Some(groups[k].head), mask, false, 0, NO_MATCH, NotFound);
            && r == ReadsAs(e.m, e.filter, groups, k, mask)
            && (k !in mask ==> r == if Rivals(e.filter, groups, k, mask, k) <= 1 then Found(k) else Ambiguous)
            && (k in mask ==> (r == NotFound <==> Rivals(e.filter, groups, k, mask, |groups|) == 0))
  {
    hide Rivals, WordMatch, Heads;
    var w := Some(groups[k].head);
    SameScan(e, Env(e.m, e.filter, [], 0), groups, w, mask, 0, NO_MATCH, NotFound);
    if k in mask {
      ScanReaches(e, groups, k, mask, |groups|);
    } else {
      ScanReaches(e, groups, k, mask, k);
      HeadMatches(e.m, e.filter, groups, k, k);
      ScanKeeps(e, groups, k, mask, k + 1);
    }
  }

  /** The scan looks at no other word of the line. */
  lemma {:induction false} SameScan(e: Env, e1: Env, groups: seq<Group>, w: Word, mask: set<nat>, i: nat, best: nat,
                                    found: ScanOut)
    requires e.m == e1.m && e.filter == e1.filter
    ensures Scan(e, groups, w, mask, false, i, best, found) == Scan(e1, groups, w, mask, false, i, best, found)
    decreases |groups| - i
  {
    if i < |groups| {
      var m := WordMatch(e.m, e.filter, groups[i].head, w);
      if i in mask || m == NO_MATCH || m < best {
        SameScan(e, e1, groups, w, mask, i + 1, best, found);
      } else if m > best {
        SameScan(e, e1, groups, w, mask, i + 1, m, Found(i));
      }
    }
  }

  /** Two earlier heads start with head k. */
  ghost predicate Crowded(groups: seq<Group>, k: nat)
    requires k < |groups|
  {
    exists i: nat, j: nat :: i < j < k && Extends(groups, i, k) && Extends(groups, j, k)
  }

  ghost predicate Clear(filter: FilterType, groups: seq<Group>) {
    filter == FILTER_STRICT || forall k: nat :: k < |groups| ==> !Crowded(groups, k)
  }

  /** No other head starts with head k, or only whole heads count. */
  ghost predicate Lone(filter: FilterType, groups: seq<Group>, k: nat)
    requires k < |groups|
  {
    filter == FILTER_STRICT || forall j: nat :: j < |groups| ==> !Extends(groups, j, k)
  }

  lemma FoundFromAnyMask(m: Matchers, filter: FilterType, groups: seq<Group>, k: nat, mask: set<nat>)
    requires Heads(groups) && k < |groups| && k !in mask
    requires filter == FILTER_STRICT || !Crowded(groups, k)
    ensures ReadsAs(m, filter, groups, k, mask) == Found(k)
  {
    ScanTyped(Env(m, filter, [], 0), groups, k, mask);
    RivalsCount(filter, groups, k, mask, k);
  }

  lemma AmbiguousAtFirst(m: Matchers, groups: seq<Group>, k: nat)
    requires Heads(groups) && k < |groups| && Crowded(groups, k)
    ensures ReadsAs(m, FILTER_RELAXED, groups, k, {}) == Ambiguous
  {
    ScanTyped(Env(m, FILTER_RELAXED, [], 0), groups, k, {});
    RivalsCount(FILTER_RELAXED, groups, k, {}, k);
    var i: nat, j: nat :| i < j < k && Extends(groups, i, k) && Extends(groups, j, k);
    assert Rival(FILTER_RELAXED, groups, k, {}, i) && Rival(FILTER_RELAXED, groups, k, {}, j);
  }

  /** Every head typed in full is found whatever was seen before if and only if the filter is strict or no head
      is extended by two earlier ones. */
  lemma HeadsFoundIff(m: Matchers, filter: FilterType, groups: seq<Group>)
    requires Heads(groups)
    ensures (forall k: nat, mask :: k < |groups| && k !in mask ==> ReadsAs(m, filter, groups, k, mask) == Found(k))
            <==> Clear(filter, groups)
  {
    if Clear(filter, groups) {
      forall k: nat, mask | k < |groups| && k !in mask ensures ReadsAs(m, filter, groups, k, mask) == Found(k) {
        FoundFromAnyMask(m, filter, groups, k, mask);
      }
    } else {
      var k: nat :| k < |groups| && Crowded(groups, k);
      AmbiguousAtFirst(m, groups, k);
      assert k !in {};
    }
  }

  /** A head typed again is refused whatever else was seen if and only if no other head extends it. */
  lemma RepeatRefusedIff(m: Matchers, filter: FilterType, groups: seq<Group>, k: nat)
    requires Heads(groups) && k < |groups|
    ensures (forall mask :: k in mask ==> ReadsAs(m, filter, groups, k, mask) == NotFound) <==> Lone(filter, groups, k)
  {
    forall mask | k in mask
      ensures ReadsAs(m, filter, groups, k, mask) == NotFound
              <==> !exists j: nat :: j < |groups| && Rival(filter, groups, k, mask, j)
    {
      ScanTyped(Env(m, filter, [], 0), groups, k, mask);
      RivalsCount(filter, groups, k, mask, |groups|);
    }
    if !Lone(filter, groups, k) {
      var j: nat :| j < |groups| && Extends(groups, j, k);
      assert k in {k} && Rival(filter, groups, k, {k}, j);
    }
  }

  // ---- one keyword as typed

  /** A keyword as typed: its head, then words for its tokens. */
  datatype Segment = Segment(key: nat, words: seq<Word>)

  /** The head in full, and at most one word for each token. */
  ghost predicate Headed(groups: seq<Group>, s: Segment) {
    && s.key < |groups| && 1 <= |s.words| <= 1 + |groups[s.key].args|
    && s.words[0] == Some(groups[s.key].head)
  }

  /** A word for every token. */
  ghost predicate Full(groups: seq<Group>, s: Segment) {
    Headed(groups, s) && |s.words| == 1 + |groups[s.key].args|
  }

  predicate OneWord(t: Simple) {
    t.Terminal? ==> t.cmd == "" || t.cmd[0] != '.'
  }

  /** Keywords whose tokens take one word each. */
  ghost predicate PlainArgs(groups: seq<Group>) {
    forall k :: 0 <= k < |groups| ==>
      |groups[k].args| <= CMD_ARGC_MAX && forall i :: 0 <= i < |groups[k].args| ==> OneWord(groups[k].args[i])
  }

  predicate Takes(m: Matchers, filter: FilterType, t: Simple, w: Word) {
    match t
    case Terminal(cmd) => WordMatch(m, filter, cmd, w) != NO_MATCH
    case Multiple(alts) => SomeMatch(m, filter, alts, w)
  }

  predicate Optional(t: Simple) {
    t.Terminal? && t.cmd != "" && t.cmd[0] == '['
  }

  /** Each word suits its token. */
  ghost predicate Suits(m: Matchers, filter: FilterType, groups: seq<Group>, s: Segment)
    requires Headed(groups, s)
  {
    forall i :: 0 <= i < |s.words| - 1 ==> Takes(m, filter, groups[s.key].args[i], s.words[i + 1])
  }

  /** The tokens without a word are optional. */
  ghost predicate RestOptional(groups: seq<Group>, s: Segment)
    requires Headed(groups, s)
  {
    forall i :: |s.words| - 1 <= i < |groups[s.key].args| ==> Optional(groups[s.key].args[i])
  }

  /** The words that become arguments. */
  function Taken(tokens: seq<Simple>, words: seq<Word>): seq<Word>
    requires |tokens| == |words|
  {
    if tokens == [] then []
    else (if HasSlot(tokens[0]) then [Normal(words[0])] else []) + Taken(tokens[1..], words[1..])
  }

  lemma {:induction false} TakenLength(tokens: seq<Simple>, words: seq<Word>)
    requires |tokens| == |words|
    ensures |Taken(tokens, words)| == |Slots(tokens)| <= |tokens|
  {
    if tokens != [] {
      TakenLength(tokens[1..], words[1..]);
    }
  }

  /** An optional token has a place in argv, so leaving its word out leaves a place unfilled. */
  lemma {:induction false} SlotsOfRest(tokens: seq<Simple>, n: nat)
    requires n <= |tokens| && forall i :: n <= i < |tokens| ==> Optional(tokens[i])
    ensures |Slots(tokens)| == |Slots(tokens[..n])| + |tokens| - n
    decreases |tokens|
  {
    if tokens != [] {
      if n > 0 {
        SlotsOfRest(tokens[1..], n - 1);
        assert tokens[..n][1..] == tokens[1..][..n - 1];
      } else {
        SlotsOfRest(tokens[1..], 0);
        assert tokens[..0] == tokens[1..][..0];
        assert HasSlot(tokens[0]);
      }
    }
  }

  function ArgsOf(groups: seq<Group>, s: Segment): seq<Word>
    requires s.key < |groups| && 1 <= |s.words| <= 1 + |groups[s.key].args|
  {
    Taken(groups[s.key].args[..|s.words| - 1], s.words[1..])
  }

  lemma OneRead(e: Env, t: Simple, wi: nat, acc: seq<Word>)
    requires wi < |e.vline| && OneWord(t) && |acc| < CMD_ARGC_MAX
    ensures Takes(e.m, e.filter, t, e.vline[wi]) ==>
              MatchSimple(e, t, wi, Some(acc))
              == Out(MATCHER_OK, wi + 1, Some(acc + if HasSlot(t) then [Normal(e.vline[wi])] else []))
    ensures !Takes(e.m, e.filter, t, e.vline[wi]) ==> MatchSimple(e, t, wi, Some(acc)).rv == MATCHER_NO_MATCH
  {
    hide WordMatch;
    assert acc + [] == acc;
  }

  /** Reading the words of one keyword: each token takes its word, and at the end of the line optional tokens do
      without. */
  lemma {:induction false} ArgsRead(e: Env, tokens: seq<Simple>, words: seq<Word>, i: nat, wi: nat, acc: seq<Word>)
    requires i <= |tokens| && |words| <= |tokens| && wi <= |e.vline| <= e.index
    requires i <= |words| ==> wi + |words| - i <= |e.vline| && e.vline[wi..wi + |words| - i] == words[i..]
    requires i >= |words| ==> (i == |tokens| || wi == |e.vline|)
    requires |words| < |tokens| ==> i > |words| || wi + |words| - i == |e.vline|
    requires forall j :: i <= j < |tokens| ==> OneWord(tokens[j])
    requires forall j :: i <= j < |words| ==> Takes(e.m, e.filter, tokens[j], words[j])
    requires forall j :: |words| <= j < |tokens| ==> Optional(tokens[j])
    requires |acc| + |tokens| - i <= CMD_ARGC_MAX
    ensures MatchArgs(e, tokens, i, wi, Some(acc))
            == ArgsOut(if i <= |words| then Out(MATCHER_OK, wi + |words| - i,
                                                Some(acc + Taken(tokens[i..|words|], words[i..])))
                       else Out(MATCHER_OK, wi, Some(acc)), false)
    decreases |tokens| - i
  {
    hide MatchSimple, Takes, HasSlot;
    if i < |words| {
      assert e.vline[wi] == e.vline[wi..wi + |words| - i][0] == words[i];
      var acc1 := acc + if HasSlot(tokens[i]) then [Normal(words[i])] else [];
      OneRead(e, tokens[i], wi, acc);
      assert e.vline[wi + 1..wi + 1 + |words| - (i + 1)] == e.vline[wi..wi + |words| - i][1..];
      ArgsRead(e, tokens, words, i + 1, wi + 1, acc1);
      assert tokens[i..|words|][1..] == tokens[i + 1..|words|] && words[i..][1..] == words[i + 1..];
      assert acc + Taken(tokens[i..|words|], words[i..]) == acc1 + Taken(tokens[i + 1..|words|], words[i + 1..]);
    } else if i < |tokens| {
      OptionSkipped(e, tokens[i], wi, Some(acc));
      ArgsRead(e, tokens, words, i + 1, wi, acc);
      assert acc + [] == acc;
    } else {
      assert acc + [] == acc;
    }
  }

  lemma OptionSkipped(e: Env, t: Simple, wi: nat, args: Args)
    requires wi >= |e.vline| && Optional(t)
    ensures MatchSimple(e, t, wi, args) == Out(MATCHER_OK, wi, args)
  {
  }

  /** A word that does not suit its token ends the reading with no match. */
  lemma {:induction false} ArgsRefused(e: Env, tokens: seq<Simple>, words: seq<Word>, i: nat, wi: nat, acc: seq<Word>)
    requires i <= |words| <= |tokens| && wi + |words| - i <= |e.vline| <= e.index
    requires e.vline[wi..wi + |words| - i] == words[i..]
    requires forall j :: i <= j < |tokens| ==> OneWord(tokens[j])
    requires exists j :: i <= j < |words| && !Takes(e.m, e.filter, tokens[j], words[j])
    requires |acc| + |tokens| - i <= CMD_ARGC_MAX
    ensures var a := MatchArgs(e, tokens, i, wi, Some(acc)); a.stop && a.out.rv == MATCHER_NO_MATCH
    decreases |tokens| - i
  {
    hide MatchSimple, Takes, HasSlot;
    assert e.vline[wi] == e.vline[wi..wi + |words| - i][0] == words[i];
    OneRead(e, tokens[i], wi, acc);
    if Takes(e.m, e.filter, tokens[i], words[i]) {
      assert e.vline[wi + 1..wi + 1 + |words| - (i + 1)] == e.vline[wi..wi + |words| - i][1..];
      ArgsRefused(e, tokens, words, i + 1, wi + 1, acc + if HasSlot(tokens[i]) then [Normal(words[i])] else []);
    }
  }

  // ---- a line of keywords as typed

  ghost predicate AllHeaded(groups: seq<Group>, segs: seq<Segment>) {
    forall i :: 0 <= i < |segs| ==> Headed(groups, segs[i])
  }

  /** Each keyword has its words, but the last one may leave out optional words at its end. */
  ghost predicate Complete(groups: seq<Group>, segs: seq<Segment>)
    requires AllHeaded(groups, segs)
  {
    forall i :: 0 <= i < |segs| ==>
      RestOptional(groups, segs[i]) && (i < |segs| - 1 ==> Full(groups, segs[i]))
  }

  /** No keyword twice or seen before, and no word refused. */
  ghost predicate Accepted(m: Matchers, filter: FilterType, groups: seq<Group>, segs: seq<Segment>, mask: set<nat>)
    requires AllHeaded(groups, segs)
  {
    && DistinctKeys(segs)
    && forall i :: 0 <= i < |segs| ==> segs[i].key !in mask && Suits(m, filter, groups, segs[i])
  }

  ghost predicate DistinctKeys(segs: seq<Segment>) {
    forall i, j :: 0 <= i < j < |segs| ==> segs[i].key != segs[j].key
  }

  function Flat(segs: seq<Segment>): seq<Word> {
    if segs == [] then [] else segs[0].words + Flat(segs[1..])
  }

  /** Each head is found where it is new and refused where it is not. */
  predicate AsTyped(m: Matchers, filter: FilterType, groups: seq<Group>, segs: seq<Segment>, mask: set<nat>) {
    segs == [] ||
    var k := segs[0].key;
    && k < |groups|
    && ReadsAs(m, filter, groups, k, mask) == (if k in mask then NotFound else Found(k))
    && AsTyped(m, filter, groups, segs[1..], mask + {k})
  }

  ghost function MapOf(groups: seq<Group>, segs: seq<Segment>): ArgsVector
    requires AllHeaded(groups, segs)
  {
    if segs == [] then map[] else map[segs[0].key := ArgsOf(groups, segs[0])] + MapOf(groups, segs[1..])
  }

  lemma {:induction false} MapOfHas(groups: seq<Group>, segs: seq<Segment>, k: nat)
    requires AllHeaded(groups, segs) && DistinctKeys(segs)
    ensures k in MapOf(groups, segs) <==> exists i :: 0 <= i < |segs| && segs[i].key == k
    ensures forall i :: 0 <= i < |segs| && segs[i].key == k ==> MapOf(groups, segs)[k] == ArgsOf(groups, segs[i])
  {
    if segs != [] {
      var rest := segs[1..];
      MapOfHas(groups, rest, k);
      assert forall i :: 1 <= i < |segs| ==> segs[i] == rest[i - 1];
      assert forall i :: 0 <= i < |rest| ==> rest[i] == segs[i + 1];
    }
  }

  /** One keyword of the line whose words suit: read, marked as seen, its arguments kept. */
  lemma SegmentRead(e: Env, groups: seq<Group>, s: Segment, wi: nat, mask: set<nat>, vec: ArgsVector)
    requires Heads(groups) && PlainArgs(groups) && Headed(groups, s) && s.key !in mask
    requires ReadsAs(e.m, e.filter, groups, s.key, mask) == Found(s.key)
    requires Suits(e.m, e.filter, groups, s) && RestOptional(groups, s)
    requires wi + |s.words| <= |e.vline| <= e.index && e.vline[wi..wi + |s.words|] == s.words
    requires Full(groups, s) || wi + |s.words| == |e.vline|
    ensures ReadKeywords(e, groups, wi, mask, vec, true)
            == ReadKeywords(e, groups, wi + |s.words|, mask + {s.key}, vec[s.key := ArgsOf(groups, s)], true)
  {
    hide MatchArgs, Taken, Scan, WordMatch, Takes, Heads, ReadsAs;
    var tokens, words := groups[s.key].args, s.words[1..];
    assert e.vline[wi] == e.vline[wi..wi + |s.words|][0] == s.words[0];
    ScanTyped(e, groups, s.key, mask);
    assert e.vline[wi + 1..wi + 1 + |words|] == e.vline[wi..wi + |s.words|][1..] && words[0..] == words;
    assert forall j :: 0 <= j < |words| ==> words[j] == s.words[j + 1];
    ArgsRead(e, tokens, words, 0, wi + 1, []);
    assert tokens[0..|words|] == tokens[..|s.words| - 1];
    assert [] + Taken(tokens[..|words|], words) == Taken(tokens[..|words|], words);
  }

  /** One with a word that is refused, or typed again: no match. */
  lemma SegmentRefused(e: Env, groups: seq<Group>, s: Segment, wi: nat, mask: set<nat>, vec: ArgsVector)
    requires Heads(groups) && PlainArgs(groups) && Headed(groups, s)
    requires ReadsAs(e.m, e.filter, groups, s.key, mask) == if s.key in mask then NotFound else Found(s.key)
    requires s.key in mask || !Suits(e.m, e.filter, groups, s)
    requires wi + |s.words| <= |e.vline| <= e.index && e.vline[wi..wi + |s.words|] == s.words
    ensures ReadKeywords(e, groups, wi, mask, vec, true).rv == MATCHER_NO_MATCH
  {
    hide MatchArgs, Taken, Scan, WordMatch, Takes, Heads, ReadsAs;
    var tokens, words := groups[s.key].args, s.words[1..];
    assert e.vline[wi] == e.vline[wi..wi + |s.words|][0] == s.words[0];
    ScanTyped(e, groups, s.key, mask);
    if s.key !in mask {
      assert e.vline[wi + 1..wi + 1 + |words|] == e.vline[wi..wi + |s.words|][1..] && words[0..] == words;
      assert forall j :: 0 <= j < |words| ==> words[j] == s.words[j + 1];
      ArgsRefused(e, tokens, words, 0, wi + 1, []);
    }
  }

  lemma LineSplits(vline: seq<Word>, wi: nat, segs: seq<Segment>)
    requires wi <= |vline| && vline[wi..] == Flat(segs) && segs != []
    ensures var w := segs[0].words;
            && wi + |w| <= |vline|
            && vline[wi..wi + |w|] == w
            && vline[wi + |w|..] == Flat(segs[1..])
            && (|segs| == 1 ==> wi + |w| == |vline|)
  {
    var w := segs[0].words;
    assert w == vline[wi..][..|w|] == vline[wi..wi + |w|];
    assert vline[wi + |w|..] == vline[wi..][|w|..] == Flat(segs[1..]);
  }

  lemma LineEnds(e: Env, groups: seq<Group>, wi: nat, mask: set<nat>, vec: ArgsVector)
    requires wi <= |e.vline| && e.vline[wi..] == Flat([])
    ensures ReadKeywords(e, groups, wi, mask, vec, true) == ReadOut(MATCHER_OK, |e.vline|, vec + MapOf(groups, []))
  {
    assert |e.vline[wi..]| == 0;
    assert vec + map[] == vec;
  }

  lemma MapOfStep(groups: seq<Group>, segs: seq<Segment>, vec: ArgsVector)
    requires AllHeaded(groups, segs) && segs != []
    ensures vec[segs[0].key := ArgsOf(groups, segs[0])] + MapOf(groups, segs[1..]) == vec + MapOf(groups, segs)
  {
    hide ArgsOf;
    var k, a, rest := segs[0].key, ArgsOf(groups, segs[0]), MapOf(groups, segs[1..]);
    assert vec[k := a] + rest == vec + (map[k := a] + rest);
  }

  /** A line of keywords that are all accepted is read to its end, and finds them all. */
  lemma {:induction false} LineRead(e: Env, groups: seq<Group>, segs: seq<Segment>, wi: nat, mask: set<nat>,
                                    vec: ArgsVector)
    requires Heads(groups) && PlainArgs(groups) && AllHeaded(groups, segs) && Complete(groups, segs)
    requires Accepted(e.m, e.filter, groups, segs, mask) && AsTyped(e.m, e.filter, groups, segs, mask)
    requires wi <= |e.vline| <= e.index && e.vline[wi..] == Flat(segs)
    ensures ReadKeywords(e, groups, wi, mask, vec, true) == ReadOut(MATCHER_OK, |e.vline|, vec + MapOf(groups, segs))
    decreases |segs|
  {
    hide Heads, PlainArgs, MapOf, ReadKeywords, Flat, ArgsOf, Suits, RestOptional, ReadsAs;
    if segs == [] {
      LineEnds(e, groups, wi, mask, vec);
    } else {
      var s, rest := segs[0], segs[1..];
      LineSplits(e.vline, wi, segs);
      SegmentRead(e, groups, s, wi, mask, vec);
      assert forall i :: 0 <= i < |rest| ==> rest[i] == segs[i + 1];
      LineRead(e, groups, rest, wi + |s.words|, mask + {s.key}, vec[s.key := ArgsOf(groups, s)]);
      MapOfStep(groups, segs, vec);
    }
  }

  /** A line with a keyword typed twice or a word refused is no match. */
  lemma {:induction false} LineRefused(e: Env, groups: seq<Group>, segs: seq<Segment>, wi: nat, mask: set<nat>,
                                       vec: ArgsVector)
    requires Heads(groups) && PlainArgs(groups) && AllHeaded(groups, segs) && Complete(groups, segs)
    requires !Accepted(e.m, e.filter, groups, segs, mask) && AsTyped(e.m, e.filter, groups, segs, mask)
    requires wi <= |e.vline| <= e.index && e.vline[wi..] == Flat(segs)
    ensures ReadKeywords(e, groups, wi, mask, vec, true).rv == MATCHER_NO_MATCH
    decreases |segs|
  {
    hide Heads, PlainArgs, MapOf, ReadKeywords, Flat, ArgsOf, Suits, RestOptional, ReadsAs;
    assert segs != [];
    var s, rest := segs[0], segs[1..];
    LineSplits(e.vline, wi, segs);
    if s.key in mask || !Suits(e.m, e.filter, groups, s) {
      SegmentRefused(e, groups, s, wi, mask, vec);
    } else {
      SegmentRead(e, groups, s, wi, mask, vec);
      assert forall i :: 0 <= i < |rest| ==> rest[i] == segs[i + 1];
      AcceptedStep(e.m, e.filter, groups, segs, mask);
      LineRefused(e, groups, rest, wi + |s.words|, mask + {s.key}, vec[s.key := ArgsOf(groups, s)]);
    }
  }

  ghost predicate AllFull(groups: seq<Group>, segs: seq<Segment>) {
    forall i :: 0 <= i < |segs| ==> Full(groups, segs[i])
  }

  lemma AcceptedStep(m: Matchers, filter: FilterType, groups: seq<Group>, segs: seq<Segment>, mask: set<nat>)
    requires AllHeaded(groups, segs) && segs != []
    ensures Accepted(m, filter, groups, segs, mask)
            <==> && segs[0].key !in mask && Suits(m, filter, groups, segs[0])
                 && Accepted(m, filter, groups, segs[1..], mask + {segs[0].key})
  {
    hide Suits;
    var rest := segs[1..];
    assert forall i :: 0 <= i < |rest| ==> rest[i] == segs[i + 1];
    assert forall i :: 1 <= i < |segs| ==> segs[i] == rest[i - 1];
  }

  // ---- permuting the line

  /** A keyword typed twice is one that no other head extends, or whole heads are asked for. */
  ghost predicate RepeatsLone(filter: FilterType, groups: seq<Group>, segs: seq<Segment>, mask: set<nat>)
    requires AllHeaded(groups, segs)
  {
    && (forall i :: 0 <= i < |segs| && segs[i].key in mask ==> Lone(filter, groups, segs[i].key))
    && forall i, j :: 0 <= i < j < |segs| && segs[i].key == segs[j].key ==> Lone(filter, groups, segs[i].key)
  }

  lemma {:induction false} ClearReads(m: Matchers, filter: FilterType, groups: seq<Group>, segs: seq<Segment>,
                                      mask: set<nat>)
    requires Heads(groups) && Clear(filter, groups) && AllHeaded(groups, segs)
             && RepeatsLone(filter, groups, segs, mask)
    ensures AsTyped(m, filter, groups, segs, mask)
    decreases |segs|
  {
    hide Heads, Lone, ReadsAs, Crowded;
    if segs != [] {
      var k, rest := segs[0].key, segs[1..];
      assert Headed(groups, segs[0]);
      if k in mask {
        RepeatRefusedIff(m, filter, groups, k);
      } else {
        FoundFromAnyMask(m, filter, groups, k, mask);
      }
      assert forall i :: 0 <= i < |rest| ==> rest[i] == segs[i + 1];
      ClearReads(m, filter, groups, rest, mask + {k});
    }
  }

  lemma {:induction false} TwoPlaces(segs: seq<Segment>, x: Segment) returns (a: nat, b: nat)
    requires multiset(segs)[x] >= 2
    ensures a < b < |segs| && segs[a] == segs[b] == x
  {
    assert segs == [segs[0]] + segs[1..];
    if segs[0] == x {
      assert x in multiset(segs[1..]);
      var j :| 0 <= j < |segs[1..]| && segs[1..][j] == x;
      a, b := 0, j + 1;
    } else {
      a, b := TwoPlaces(segs[1..], x);
      a, b := a + 1, b + 1;
    }
  }

  lemma Occurs(segs: seq<Segment>, i: nat, j: nat)
    requires i < j < |segs| && segs[i] == segs[j]
    ensures multiset(segs)[segs[i]] >= 2
  {
    assert segs == segs[..j] + [segs[j]] + segs[j + 1..];
    assert segs[..j][i] == segs[i] && segs[i] in multiset(segs[..j]);
  }

  /** A keyword typed twice in one order is typed twice in the other. */
  lemma PairStays(segs: seq<Segment>, perm: seq<Segment>, i: nat, j: nat) returns (a: nat, b: nat)
    requires multiset(perm) == multiset(segs) && i < j < |perm| && perm[i].key == perm[j].key
    ensures a < b < |segs| && segs[a].key == segs[b].key == perm[i].key
  {
    if perm[i] == perm[j] {
      Occurs(perm, i, j);
      a, b := TwoPlaces(segs, perm[i]);
    } else {
      assert perm[i] in multiset(segs) && perm[j] in multiset(segs);
      a :| 0 <= a < |segs| && segs[a] == perm[i];
      b :| 0 <= b < |segs| && segs[b] == perm[j];
      if b < a {
        a, b := b, a;
      }
    }
  }

  lemma SameMembers(segs: seq<Segment>, perm: seq<Segment>)
    requires multiset(perm) == multiset(segs)
    ensures forall x :: x in perm <==> x in segs
  {
    forall x: Segment | true ensures x in perm <==> x in segs {
      assert x in perm <==> x in multiset(perm);
    }
  }

  lemma PermutedShape(filter: FilterType, groups: seq<Group>, segs: seq<Segment>, perm: seq<Segment>)
    requires multiset(perm) == multiset(segs) && AllFull(groups, segs) && RepeatsLone(filter, groups, segs, {})
    ensures AllFull(groups, perm) && RepeatsLone(filter, groups, perm, {})
  {
    hide Full, Lone;
    SameMembers(segs, perm);
    forall i | 0 <= i < |perm| ensures Full(groups, perm[i]) {
      assert perm[i] in segs;
    }
    FullIsHeaded(groups, perm);
    forall i, j | 0 <= i < j < |perm| && perm[i].key == perm[j].key ensures Lone(filter, groups, perm[i].key) {
      var a, b := PairStays(segs, perm, i, j);
    }
  }

  lemma FullIsHeaded(groups: seq<Group>, segs: seq<Segment>)
    requires AllFull(groups, segs)
    ensures AllHeaded(groups, segs) && Complete(groups, segs)
  {
  }

  lemma PermutedAccepted(m: Matchers, filter: FilterType, groups: seq<Group>, segs: seq<Segment>, perm: seq<Segment>)
    requires multiset(perm) == multiset(segs) && AllHeaded(groups, segs) && AllHeaded(groups, perm)
    requires Accepted(m, filter, groups, segs, {})
    ensures Accepted(m, filter, groups, perm, {})
  {
    hide Suits, Headed;
    SameMembers(segs, perm);
    forall i | 0 <= i < |perm| ensures Headed(groups, perm[i]) && Suits(m, filter, groups, perm[i]) {
      assert perm[i] in segs;
    }
    forall i, j | 0 <= i < j < |perm| ensures perm[i].key != perm[j].key {
      if perm[i].key == perm[j].key {
        var a, b := PairStays(segs, perm, i, j);
        assert false;
      }
    }
  }

  lemma PermutedMap(groups: seq<Group>, segs: seq<Segment>, perm: seq<Segment>)
    requires AllHeaded(groups, segs) && AllHeaded(groups, perm) && DistinctKeys(segs) && DistinctKeys(perm)
    requires multiset(perm) == multiset(segs)
    ensures MapOf(groups, segs) == MapOf(groups, perm)
  {
    hide MapOf, ArgsOf;
    SameMembers(segs, perm);
    var a, b := MapOf(groups, segs), MapOf(groups, perm);
    forall k: nat | true
      ensures k in a <==> k in b
      ensures k in a && k in b ==> a[k] == b[k]
    {
      MapOfHas(groups, segs, k);
      MapOfHas(groups, perm, k);
      SameKeys(segs, perm, k);
      SameKeys(perm, segs, k);
    }
  }

  lemma SameKeys(segs: seq<Segment>, perm: seq<Segment>, k: nat)
    requires forall x :: x in perm <==> x in segs
    ensures forall i :: 0 <= i < |segs| && segs[i].key == k ==> exists j :: 0 <= j < |perm| && perm[j] == segs[i]
  {
    forall i | 0 <= i < |segs| && segs[i].key == k ensures exists j :: 0 <= j < |perm| && perm[j] == segs[i] {
      assert segs[i] in segs && segs[i] in perm;
    }
  }

  // ---- whole lines

  /** A token of the element that takes exactly one word of the line. */
  predicate TakesOneWord(t: Token) {
    t.One? && OneWord(t.token)
  }

  /** The element: tokens of one word each, then the keyword group. */
  function Element(pre: seq<Token>, groups: seq<Group>): seq<Token> {
    pre + [Keyword(groups)]
  }

  /** A line executed, as opposed to completed at some word: the index is -1. */
  function Executed(m: Matchers, filter: FilterType, vline: seq<Word>): Env {
    Env(m, filter, vline, UINT_MAX)
  }

  /** What the element makes of a line that starts with the words p and goes on with these keywords. */
  function Answer(m: Matchers, filter: FilterType, pre: seq<Token>, groups: seq<Group>, p: seq<Word>,
                  segs: seq<Segment>): Out
  {
    ElementMatch(Executed(m, filter, p + Flat(segs)), Element(pre, groups), true)
  }

  /** The tokens before the keywords, each looking at its own word only. */
  function PreMatch(m: Matchers, filter: FilterType, pre: seq<Token>, p: seq<Word>, i: nat, args: seq<Word>): Out
    requires |p| == |pre| && forall t :: t in pre ==> TakesOneWord(t)
    decreases |pre| - i
  {
    if i >= |pre| then Out(MATCHER_OK, i, Some(args))
    else
      assert TakesOneWord(pre[i]);
      var o := MatchSimple(Executed(m, filter, p), pre[i].token, i, Some(args));
      if Error(o.rv) then o else PreMatch(m, filter, pre, p, i + 1, o.args.value)
  }

  lemma OneWordOnly(e: Env, e1: Env, t: Simple, wi: nat, args: Args)
    requires e.m == e1.m && e.filter == e1.filter && wi < |e.vline| && wi < |e1.vline| && e.vline[wi] == e1.vline[wi]
    requires OneWord(t)
    ensures MatchSimple(e, t, wi, args) == MatchSimple(e1, t, wi, args)
    ensures !Error(MatchSimple(e, t, wi, args).rv) ==> MatchSimple(e, t, wi, args).wi == wi + 1
  {
  }

  lemma PreEnds(m: Matchers, filter: FilterType, pre: seq<Token>, p: seq<Word>, args: seq<Word>)
    requires |p| == |pre| && forall t :: t in pre ==> TakesOneWord(t)
    ensures PreMatch(m, filter, pre, p, |pre|, args) == Out(MATCHER_OK, |pre|, Some(args))
  {
  }

  lemma PreStep(m: Matchers, filter: FilterType, pre: seq<Token>, p: seq<Word>, i: nat, args: seq<Word>)
    requires |p| == |pre| && (forall t :: t in pre ==> TakesOneWord(t)) && i < |pre| && pre[i].One?
    ensures var o := MatchSimple(Executed(m, filter, p), pre[i].token, i, Some(args));
            && (Error(o.rv) || o.args.Some?)
            && PreMatch(m, filter, pre, p, i, args)
               == if Error(o.rv) then o else PreMatch(m, filter, pre, p, i + 1, o.args.value)
  {
    hide MatchSimple;
    assert TakesOneWord(pre[i]);
  }

  lemma TokenStep(e: Env, tokens: seq<Token>, i: nat, args: seq<Word>)
    requires i < |tokens| && tokens[i].One? && OneWord(tokens[i].token) && i < |e.vline| <= e.index
    ensures var o := MatchSimple(e, tokens[i].token, i, Some(args));
            MatchTokens(e, tokens, i, i, Some(args))
            == if Error(o.rv) then o else MatchTokens(e, tokens, i + 1, i + 1, o.args)
  {
    hide MatchSimple;
    OneWordOnly(e, e, tokens[i].token, i, Some(args));
  }

  lemma {:induction false} FromToken(m: Matchers, filter: FilterType, pre: seq<Token>, groups: seq<Group>, p: seq<Word>,
                                     rest: seq<Word>, i: nat, args: seq<Word>)
    requires forall t :: t in pre ==> TakesOneWord(t)
    requires |p| == |pre| && i <= |pre| && |p + rest| <= UINT_MAX
    ensures var e := Executed(m, filter, p + rest);
            var o := PreMatch(m, filter, pre, p, i, args);
            && (Error(o.rv) || (o.args.Some? && o.rv == MATCHER_OK))
            && MatchTokens(e, Element(pre, groups), i, i, Some(args))
               == if Error(o.rv) then o else MatchTokens(e, Element(pre, groups), |pre|, |pre|, o.args)
    decreases |pre| - i
  {
    hide MatchSimple, MatchTokens, PreMatch;
    if i == |pre| {
      PreEnds(m, filter, pre, p, args);
    } else {
      var e, tokens := Executed(m, filter, p + rest), Element(pre, groups);
      assert tokens[i] == pre[i] && pre[i] in pre && e.vline[i] == p[i];
      var o := MatchSimple(e, pre[i].token, i, Some(args));
      OneWordOnly(e, Executed(m, filter, p), pre[i].token, i, Some(args));
      PreStep(m, filter, pre, p, i, args);
      TokenStep(e, tokens, i, args);
      if !Error(o.rv) {
        FromToken(m, filter, pre, groups, p, rest, i + 1, o.args.value);
      }
    }
  }

  /** The result when the keywords with these words were all accepted. */
  function Filled(groups: seq<Group>, vec: ArgsVector, args: Args): (MatcherRv, Args) {
    var ws := Contributions(groups, 0, vec);
    (if Overflows(args, ws) then MATCHER_EXCEED_ARGC_MAX else MATCHER_COMPLETE, PushAll(args, ws))
  }

  /** Keywords that are accepted give their words; keywords that are not give no match. */
  lemma AnswerIs(m: Matchers, filter: FilterType, pre: seq<Token>, groups: seq<Group>, p: seq<Word>, segs: seq<Segment>)
    requires forall t :: t in pre ==> TakesOneWord(t)
    requires Heads(groups) && PlainArgs(groups) && AllHeaded(groups, segs) && Complete(groups, segs)
    requires AsTyped(m, filter, groups, segs, {})
    requires |p| == |pre| && |p + Flat(segs)| <= UINT_MAX
    ensures var a := Answer(m, filter, pre, groups, p, segs);
            var o := PreMatch(m, filter, pre, p, 0, []);
            && (Error(o.rv) ==> a == o)
            && (!Error(o.rv) && Accepted(m, filter, groups, segs, {})
                ==> (a.rv, a.args) == Filled(groups, MapOf(groups, segs), o.args))
            && (!Error(o.rv) && !Accepted(m, filter, groups, segs, {}) ==> a.rv == MATCHER_NO_MATCH)
  {
    hide PreMatch, MapOf, ReadKeywords, Contributions, Heads, PlainArgs, AllHeaded, Complete, Accepted, AllFull,
         AsTyped, Overflows, PushAll;
    var e, tokens := Executed(m, filter, p + Flat(segs)), Element(pre, groups);
    FromToken(m, filter, pre, groups, p, Flat(segs), 0, []);
    assert tokens[|pre|] == Keyword(groups) && e.vline[|p|..] == Flat(segs);
    if Accepted(m, filter, groups, segs, {}) {
      LineRead(e, groups, segs, |p|, {}, map[]);
      assert map[] + MapOf(groups, segs) == MapOf(groups, segs);
    } else {
      LineRefused(e, groups, segs, |p|, {}, map[]);
    }
  }

  /** The order in which keywords are typed does not matter: the same result code and, unless it is no match, the
      same argc and argv. Any words may stand for the arguments; one that is refused, or a keyword typed twice,
      is no match in every order. */
  lemma KeywordOrderIsIrrelevant(m: Matchers, filter: FilterType, pre: seq<Token>, groups: seq<Group>, p: seq<Word>,
                                 segs: seq<Segment>, perm: seq<Segment>)
    requires forall t :: t in pre ==> TakesOneWord(t)
    requires Heads(groups) && PlainArgs(groups) && Clear(filter, groups)
    requires AllFull(groups, segs) && RepeatsLone(filter, groups, segs, {}) && multiset(perm) == multiset(segs)
    requires |p| == |pre| && |p + Flat(segs)| <= UINT_MAX && |p + Flat(perm)| <= UINT_MAX
    ensures var a := Answer(m, filter, pre, groups, p, segs);
            var b := Answer(m, filter, pre, groups, p, perm);
            a.rv == b.rv && (a.rv != MATCHER_NO_MATCH ==> a.args == b.args)
  {
    hide Answer, PreMatch, MapOf, Filled, Heads, PlainArgs, Clear, RepeatsLone, AsTyped, Accepted, AllFull, Complete,
         AllHeaded;
    PermutedShape(filter, groups, segs, perm);
    FullIsHeaded(groups, segs);
    FullIsHeaded(groups, perm);
    ClearReads(m, filter, groups, segs, {});
    ClearReads(m, filter, groups, perm, {});
    AnswerIs(m, filter, pre, groups, p, segs);
    AnswerIs(m, filter, pre, groups, p, perm);
    if Accepted(m, filter, groups, segs, {}) {
      PermutedAccepted(m, filter, groups, segs, perm);
      AcceptedKeys(m, filter, groups, segs);
      AcceptedKeys(m, filter, groups, perm);
      PermutedMap(groups, segs, perm);
    } else if Accepted(m, filter, groups, perm, {}) {
      PermutedAccepted(m, filter, groups, perm, segs);
    }
  }

  lemma AcceptedKeys(m: Matchers, filter: FilterType, groups: seq<Group>, segs: seq<Segment>)
    requires AllHeaded(groups, segs) && Accepted(m, filter, groups, segs, {})
    ensures DistinctKeys(segs)
  {
  }

  /** With heads that are not prefixes of one another, or a strict filter, nothing more is asked of the line. */
  lemma PrefixFreeOrderIsIrrelevant(m: Matchers, filter: FilterType, pre: seq<Token>, groups: seq<Group>, p: seq<Word>,
                                    segs: seq<Segment>, perm: seq<Segment>)
    requires forall t :: t in pre ==> TakesOneWord(t)
    requires Heads(groups) && PlainArgs(groups)
    requires filter == FILTER_STRICT || forall j: nat, k: nat :: j < |groups| && k < |groups| ==> !Extends(groups, j, k)
    requires AllFull(groups, segs) && multiset(perm) == multiset(segs)
    requires |p| == |pre| && |p + Flat(segs)| <= UINT_MAX && |p + Flat(perm)| <= UINT_MAX
    ensures var a := Answer(m, filter, pre, groups, p, segs);
            var b := Answer(m, filter, pre, groups, p, perm);
            a.rv == b.rv && (a.rv != MATCHER_NO_MATCH ==> a.args == b.args)
  {
    hide Answer, Extends, PlainArgs, Heads;
    FullIsHeaded(groups, segs);
    KeywordOrderIsIrrelevant(m, filter, pre, groups, p, segs, perm);
  }

  // ---- and when the order does matter

  /** The first n heads that start with head k. */
  function Longer(groups: seq<Group>, k: nat, n: nat): seq<nat>
    requires n <= |groups| && k < |groups|
  {
    if n == 0 then [] else Longer(groups, k, n - 1) + if Extends(groups, n - 1, k) then [n - 1] else []
  }

  lemma {:induction false} LongerHas(groups: seq<Group>, k: nat, n: nat)
    requires n <= |groups| && k < |groups|
    ensures |Longer(groups, k, n)| <= n
    ensures forall j: nat :: j in Longer(groups, k, n) <==> j < n && Extends(groups, j, k)
    ensures forall a, b :: 0 <= a < b < |Longer(groups, k, n)| ==> Longer(groups, k, n)[a] < Longer(groups, k, n)[b]
  {
    hide Extends;
    if n > 0 {
      LongerHas(groups, k, n - 1);
      var l := Longer(groups, k, n - 1);
      assert forall a :: 0 <= a < |l| ==> l[a] in l;
    }
  }

  /** A keyword typed with no word in place of any argument. */
  function Bare(groups: seq<Group>, k: nat): Segment
    requires k < |groups|
  {
    Segment(k, [Some(groups[k].head)] + seq(|groups[k].args|, _ => None))
  }

  function Bares(groups: seq<Group>, ks: seq<nat>): (segs: seq<Segment>)
    requires forall i :: 0 <= i < |ks| ==> ks[i] < |groups|
    ensures |segs| == |ks|
  {
    seq(|ks|, i requires 0 <= i < |ks| => Bare(groups, ks[i]))
  }

  lemma BaresFull(groups: seq<Group>, ks: seq<nat>)
    requires forall i :: 0 <= i < |ks| ==> ks[i] < |groups|
    ensures AllFull(groups, Bares(groups, ks))
    ensures (forall i, j :: 0 <= i < j < |ks| ==> ks[i] != ks[j]) ==> DistinctKeys(Bares(groups, ks))
  {
  }

  lemma {:induction false} BaresLength(groups: seq<Group>, ks: seq<nat>)
    requires PlainArgs(groups) && forall i :: 0 <= i < |ks| ==> ks[i] < |groups|
    ensures |Flat(Bares(groups, ks))| <= (CMD_ARGC_MAX + 1) * |ks|
    decreases |ks|
  {
    if ks != [] {
      BaresLength(groups, ks[1..]);
      assert Bares(groups, ks)[1..] == Bares(groups, ks[1..]);
    }
  }

  lemma BaresStep(groups: seq<Group>, ks: seq<nat>)
    requires ks != [] && forall i :: 0 <= i < |ks| ==> ks[i] < |groups|
    ensures Bares(groups, ks)[0].key == ks[0] && Bares(groups, ks)[1..] == Bares(groups, ks[1..])
  {
  }

  /** Longer heads typed first, so that at most one is left unseen, let the shorter one be found. */
  lemma {:induction false} LongerFirst(m: Matchers, groups: seq<Group>, k: nat, ks: seq<nat>, mask: set<nat>)
    requires Heads(groups) && k < |groups| && k !in mask && forall c: nat :: c < k ==> !Crowded(groups, c)
    requires forall i :: 0 <= i < |ks| ==> ks[i] < k && ks[i] !in mask
    requires forall i, j :: 0 <= i < j < |ks| ==> ks[i] != ks[j]
    requires Rivals(FILTER_RELAXED, groups, k, mask + (set x | x in ks), k) <= 1
    ensures AsTyped(m, FILTER_RELAXED, groups, Bares(groups, ks + [k]), mask)
    decreases |ks|
  {
    hide Heads, Crowded, ReadsAs, Rivals, Bares;
    var segs := Bares(groups, ks + [k]);
    BaresStep(groups, ks + [k]);
    assert ks != [] ==> (ks + [k])[1..] == ks[1..] + [k];
    if ks == [] {
      assert mask + (set x | x in ks) == mask;
      ScanTyped(Env(m, FILTER_RELAXED, [], 0), groups, k, mask);
      assert AsTyped(m, FILTER_RELAXED, groups, segs[1..], mask + {k});
    } else {
      FoundFromAnyMask(m, FILTER_RELAXED, groups, ks[0], mask);
      assert mask + {ks[0]} + (set x | x in ks[1..]) == mask + (set x | x in ks);
      LongerFirst(m, groups, k, ks[1..], mask + {ks[0]});
    }
  }

  lemma {:induction false} LeastCrowded(groups: seq<Group>, n: nat) returns (k: nat)
    requires n <= |groups| && exists c: nat :: c < n && Crowded(groups, c)
    ensures k < n && Crowded(groups, k) && forall c: nat :: c < k ==> !Crowded(groups, c)
  {
    hide Crowded;
    if c: nat :| c < n - 1 && Crowded(groups, c) {
      k := LeastCrowded(groups, n - 1);
    } else {
      k := n - 1;
    }
  }

  /** All but the first of the longer heads before k, then k: at most one rival is left unseen. */
  lemma OneRivalLeft(groups: seq<Group>, k: nat)
    requires k < |groups| && Longer(groups, k, k) != []
    ensures Rivals(FILTER_RELAXED, groups, k, {} + (set x | x in Longer(groups, k, k)[1..]), k) <= 1
  {
    hide Extends;
    var l := Longer(groups, k, k);
    var mask := {} + (set x | x in l[1..]);
    LongerHas(groups, k, k);
    RivalsCount(FILTER_RELAXED, groups, k, mask, k);
    forall j: nat | j < k && Rival(FILTER_RELAXED, groups, k, mask, j) ensures j == l[0] {
      assert j in l;
      assert l == [l[0]] + l[1..];
    }
  }

  /** A pair of lines of distinct keywords, one a permutation of the other. */
  ghost predicate LinePair(groups: seq<Group>, segs: seq<Segment>, perm: seq<Segment>) {
    && AllFull(groups, segs) && DistinctKeys(segs) && multiset(perm) == multiset(segs)
    && |Flat(segs)| <= UINT_MAX && |Flat(perm)| <= UINT_MAX
  }

  ghost predicate SameAnswer(m: Matchers, filter: FilterType, groups: seq<Group>, segs: seq<Segment>,
                             perm: seq<Segment>) {
    var a := Answer(m, filter, [], groups, [], segs);
    var b := Answer(m, filter, [], groups, [], perm);
    a.rv == b.rv && (a.rv != MATCHER_NO_MATCH ==> a.args == b.args)
  }

  /** The least keyword with two longer heads before it, typed after all of them but one and typed first. */
  lemma OrderMatters(m: Matchers, groups: seq<Group>) returns (segs: seq<Segment>, perm: seq<Segment>)
    requires Heads(groups) && PlainArgs(groups) && !Clear(FILTER_RELAXED, groups)
    ensures LinePair(groups, segs, perm)
    ensures Answer(m, FILTER_RELAXED, [], groups, [], segs).rv != MATCHER_AMBIGUOUS
    ensures Answer(m, FILTER_RELAXED, [], groups, [], perm).rv == MATCHER_AMBIGUOUS
  {
    hide Heads, PlainArgs, Crowded, Extends, Rivals, AsTyped, AllFull, AllHeaded, Complete, Accepted, Answer, MapOf,
         Bares, Flat, DistinctKeys;
    var k := LeastCrowded(groups, |groups|);
    LongerHas(groups, k, k);
    CrowdedHasLonger(groups, k);
    var l := Longer(groups, k, k);
    var ks := l[1..];
    forall i | 0 <= i < |ks| ensures ks[i] < k {
      assert l[i + 1] in l;
    }
    OneRivalLeft(groups, k);
    LongerFirst(m, groups, k, ks, {});
    segs, perm := Bares(groups, ks + [k]), Bares(groups, [k] + ks);
    BaresPermuted(groups, k, ks);
    FullIsHeaded(groups, segs);
    assert [] + Flat(segs) == Flat(segs) && [] + Flat(perm) == Flat(perm);
    AnswerIs(m, FILTER_RELAXED, [], groups, [], segs);
    FirstIsAmbiguous(m, groups, k, perm);
  }

  lemma CrowdedHasLonger(groups: seq<Group>, k: nat)
    requires k < |groups| && Crowded(groups, k)
    ensures Longer(groups, k, k) != []
  {
    LongerHas(groups, k, k);
    var i: nat, j: nat :| i < j < k && Extends(groups, i, k) && Extends(groups, j, k);
    assert i in Longer(groups, k, k);
  }

  lemma BaresPermuted(groups: seq<Group>, k: nat, ks: seq<nat>)
    requires PlainArgs(groups) && Heads(groups) && k < |groups| && |ks| < |groups|
    requires forall i :: 0 <= i < |ks| ==> ks[i] < k
    requires forall i, j :: 0 <= i < j < |ks| ==> ks[i] < ks[j]
    ensures LinePair(groups, Bares(groups, ks + [k]), Bares(groups, [k] + ks))
    ensures Bares(groups, [k] + ks)[0] == Bare(groups, k)
  {
    hide PlainArgs, Flat, Bare, AllFull, DistinctKeys;
    BaresFull(groups, ks + [k]);
    BaresLength(groups, ks + [k]);
    BaresLength(groups, [k] + ks);
    assert Bares(groups, ks + [k]) == Bares(groups, ks) + [Bare(groups, k)];
    assert Bares(groups, [k] + ks) == [Bare(groups, k)] + Bares(groups, ks);
  }

  lemma {:induction false} FirstIsAmbiguous(m: Matchers, groups: seq<Group>, k: nat, perm: seq<Segment>)
    requires Heads(groups) && k < |groups| && Crowded(groups, k)
    requires perm != [] && perm[0] == Bare(groups, k) && |Flat(perm)| <= UINT_MAX
    ensures Answer(m, FILTER_RELAXED, [], groups, [], perm).rv == MATCHER_AMBIGUOUS
  {
    hide Scan, Heads, Crowded, ReadsAs, PushAll, Overflows, Contributions;
    var e := Executed(m, FILTER_RELAXED, [] + Flat(perm));
    assert e.vline[0] == Some(groups[k].head);
    ScanTyped(e, groups, k, {});
    AmbiguousAtFirst(m, groups, k);
    assert ReadKeywords(e, groups, 0, {}, map[], true).rv == MATCHER_AMBIGUOUS;
    assert Element([], groups)[0] == Keyword(groups);
  }

  /** Distinct keywords may be typed in any order if and only if the filter is strict or no head is extended by
      two earlier ones. */
  lemma OrderIsIrrelevantIff(m: Matchers, filter: FilterType, groups: seq<Group>)
    requires Heads(groups) && PlainArgs(groups)
    ensures (forall segs, perm :: LinePair(groups, segs, perm) ==> SameAnswer(m, filter, groups, segs, perm))
            <==> Clear(filter, groups)
  {
    hide Heads, PlainArgs, Clear, LinePair, SameAnswer;
    if Clear(filter, groups) {
      forall segs, perm | LinePair(groups, segs, perm) ensures SameAnswer(m, filter, groups, segs, perm) {
        ClearSameAnswer(m, filter, groups, segs, perm);
      }
    } else {
      NotClearIsRelaxed(filter, groups);
      var segs, perm := OrderMatters(m, groups);
      DifferentAnswer(m, groups, segs, perm);
    }
  }

  lemma ClearSameAnswer(m: Matchers, filter: FilterType, groups: seq<Group>, segs: seq<Segment>, perm: seq<Segment>)
    requires Heads(groups) && PlainArgs(groups) && Clear(filter, groups) && LinePair(groups, segs, perm)
    ensures SameAnswer(m, filter, groups, segs, perm)
  {
    hide Heads, PlainArgs, Clear, Answer;
    FullIsHeaded(groups, segs);
    assert [] + Flat(segs) == Flat(segs) && [] + Flat(perm) == Flat(perm);
    KeywordOrderIsIrrelevant(m, filter, [], groups, [], segs, perm);
  }

  lemma NotClearIsRelaxed(filter: FilterType, groups: seq<Group>)
    requires !Clear(filter, groups)
    ensures filter == FILTER_RELAXED && !Clear(FILTER_RELAXED, groups)
  {
  }

  lemma DifferentAnswer(m: Matchers, groups: seq<Group>, segs: seq<Segment>, perm: seq<Segment>)
    requires Answer(m, FILTER_RELAXED, [], groups, [], segs).rv != MATCHER_AMBIGUOUS
    requires Answer(m, FILTER_RELAXED, [], groups, [], perm).rv == MATCHER_AMBIGUOUS
    ensures !SameAnswer(m, FILTER_RELAXED, groups, segs, perm)
  {
  }

  // ---- how many arguments

  /** The places kept for the arguments of the keywords from i on. */
  function SlotCount(groups: seq<Group>, i: nat): nat
    decreases |groups| - i
  {
    if i >= |groups| then 0
    else (if groups[i].args == [] then 1 else |Slots(groups[i].args)|) + SlotCount(groups, i + 1)
  }

  /** The words left out at the end of the line. */
  function Omitted(groups: seq<Group>, segs: seq<Segment>): nat
    requires forall i :: 0 <= i < |segs| ==> segs[i].key < |groups| && |segs[i].words| <= 1 + |groups[segs[i].key].args|
  {
    if segs == [] then 0
    else
      var last := segs[|segs| - 1];
      1 + |groups[last.key].args| - |last.words|
  }

  /** What keyword i adds: all its places, unless it is the last one and leaves words out. */
  lemma ContributionLength(groups: seq<Group>, segs: seq<Segment>, i: nat)
    requires AllHeaded(groups, segs) && Complete(groups, segs) && DistinctKeys(segs) && i < |groups|
    ensures var vec := MapOf(groups, segs);
            var c := |Contribution(groups[i], i in vec, if i in vec then vec[i] else [])|;
            c + (if segs != [] && segs[|segs| - 1].key == i then Omitted(groups, segs) else 0)
            == if groups[i].args == [] then 1 else |Slots(groups[i].args)|
  {
    hide MapOf, Slots, Taken, Optional;
    MapOfHas(groups, segs, i);
    if j: nat :| j < |segs| && segs[j].key == i {
      var tokens, n := groups[i].args, |segs[j].words| - 1;
      TakenLength(tokens[..n], segs[j].words[1..]);
      SlotsOfRest(tokens, n);
      assert j < |segs| - 1 ==> n == |tokens| && tokens[..n] == tokens;
    }
  }

  lemma {:induction false} ContributionsLength(groups: seq<Group>, segs: seq<Segment>, i: nat)
    requires AllHeaded(groups, segs) && Complete(groups, segs) && DistinctKeys(segs)
    ensures |Contributions(groups, i, MapOf(groups, segs))|
            + (if segs != [] && segs[|segs| - 1].key >= i then Omitted(groups, segs) else 0) == SlotCount(groups, i)
    decreases |groups| - i
  {
    hide MapOf, Contribution, Omitted;
    if i < |groups| {
      ContributionLength(groups, segs, i);
      ContributionsLength(groups, segs, i + 1);
    }
  }

  lemma {:induction false} PushAllCounts(args: seq<Word>, ws: seq<Word>)
    requires !Overflows(Some(args), ws)
    ensures PushAll(Some(args), ws).Some? && |PushAll(Some(args), ws).value| == |args| + |ws|
    decreases |ws|
  {
    if ws != [] {
      PushAllCounts(Push(Some(args), ws[0]).value, ws[1..]);
    }
  }

  /** The places that the tokens before the keywords fill. */
  function PreCount(pre: seq<Token>, i: nat): nat
    requires forall t :: t in pre ==> TakesOneWord(t)
    decreases |pre| - i
  {
    if i >= |pre| then 0
    else
      assert TakesOneWord(pre[i]);
      (if HasSlot(pre[i].token) then 1 else 0) + PreCount(pre, i + 1)
  }

  lemma {:induction false} PreCounts(m: Matchers, filter: FilterType, pre: seq<Token>, p: seq<Word>, i: nat,
                                     args: seq<Word>)
    requires |p| == |pre| <= UINT_MAX && i <= |pre| && forall t :: t in pre ==> TakesOneWord(t)
    ensures var o := PreMatch(m, filter, pre, p, i, args);
            !Error(o.rv) ==> o.args.Some? && |o.args.value| == |args| + PreCount(pre, i)
    ensures !(PreMatch(m, filter, pre, p, i, args).rv == MATCHER_COMPLETE)
    decreases |pre| - i
  {
    hide WordMatch;
    if i < |pre| {
      assert TakesOneWord(pre[i]);
      var o := MatchSimple(Executed(m, filter, p), pre[i].token, i, Some(args));
      if !Error(o.rv) {
        PreCounts(m, filter, pre, p, i + 1, o.args.value);
      }
    }
  }

  /** On success argc is the number of places kept, less the optional words left out at the end of the line: so
      it is the same whichever keywords are present if and only if none is left out. */
  lemma ArgcIffNothingOmitted(m: Matchers, filter: FilterType, pre: seq<Token>, groups: seq<Group>, p: seq<Word>,
                              segs: seq<Segment>)
    requires forall t :: t in pre ==> TakesOneWord(t)
    requires Heads(groups) && PlainArgs(groups) && Clear(filter, groups)
    requires AllHeaded(groups, segs) && Complete(groups, segs) && RepeatsLone(filter, groups, segs, {})
    requires |p| == |pre| && |p + Flat(segs)| <= UINT_MAX
    ensures var a := Answer(m, filter, pre, groups, p, segs);
            a.rv == MATCHER_COMPLETE ==>
              && a.args.Some?
              && |a.args.value| == PreCount(pre, 0) + SlotCount(groups, 0) - Omitted(groups, segs)
              && (|a.args.value| == PreCount(pre, 0) + SlotCount(groups, 0) <==> Omitted(groups, segs) == 0)
  {
    hide Answer, PreMatch, MapOf, Heads, PlainArgs, Clear, RepeatsLone, AsTyped, Accepted, Complete,
         Contributions, Overflows, PushAll, AllHeaded;
    ClearReads(m, filter, groups, segs, {});
    AnswerIs(m, filter, pre, groups, p, segs);
    PreCounts(m, filter, pre, p, 0, []);
    var o := PreMatch(m, filter, pre, p, 0, []);
    if !Error(o.rv) && Accepted(m, filter, groups, segs, {}) {
      AcceptedKeys(m, filter, groups, segs);
      ContributionsLength(groups, segs, 0);
      var ws := Contributions(groups, 0, MapOf(groups, segs));
      if !Overflows(o.args, ws) {
        PushAllCounts(o.args.value, ws);
      }
    }
  }

  // ---- instances

  /** "k [x]": the keyword without its optional word gives no argument, no keyword at all gives one. */
  lemma OptionalWordChangesArgc(m: Matchers)
    ensures var groups := [Group("k", [Terminal("[x]")])];
            var typed := ElementMatch(Executed(m, FILTER_RELAXED, [Some("k")]), [Keyword(groups)], true);
            var empty := ElementMatch(Executed(m, FILTER_RELAXED, []), [Keyword(groups)], true);
            && typed.rv == MATCHER_COMPLETE && typed.args == Some([])
            && empty.rv == MATCHER_COMPLETE && empty.args == Some([None])
  {
    var groups := [Group("k", [Terminal("[x]")])];
    var e := Executed(m, FILTER_RELAXED, [Some("k")]);
    assert WordMatch(m, FILTER_RELAXED, "k", Some("k")) == EXACT_MATCH;
    assert Scan(e, groups, Some("k"), {}, false, 0, NO_MATCH, NotFound) == Found(0);
    assert MatchArgs(e, groups[0].args, 0, 1, Some([])) == ArgsOut(Out(MATCHER_OK, 1, Some([])), false);
    assert ReadKeywords(e, groups, 0, {}, map[], true) == ReadOut(MATCHER_OK, 1, map[0 := []]);
    var none: seq<Word> := [];
    assert Contributions(groups, 0, map[0 := none]) == none;
    assert Contributions(groups, 0, map[]) == [None];
    assert MatchKeyword(e, groups, 0, Some(none)) == Out(MATCHER_OK, 1, Some(none));
    assert MatchTokens(e, [Keyword(groups)], 1, 1, Some(none)) == Out(MATCHER_COMPLETE, 1, Some(none));
    var e0 := Executed(m, FILTER_RELAXED, []);
    var nul: Word := None;
    assert none + [Normal(nul)] == [nul];
    assert Push(Some(none), nul) == Some([nul]);
    assert PushAll(Some(none), [None]) == Some([None]) && !Overflows(Some(none), [None]);
    assert MatchKeyword(e0, groups, 0, Some(none)) == Out(MATCHER_OK, 0, Some([None]));
    assert MatchTokens(e0, [Keyword(groups)], 1, 0, Some([None])) == Out(MATCHER_COMPLETE, 0, Some([None]));
  }

  /** Heads "ab1", "ab2" and "ab" are crowded: "ab" typed first is ambiguous, though typed last it is found. */
  lemma PrefixesMakeOrderMatter(m: Matchers)
    ensures var groups := [Group("ab1", []), Group("ab2", []), Group("ab", [])];
            && Heads(groups) && Crowded(groups, 2)
            && ReadsAs(m, FILTER_RELAXED, groups, 2, {}) == Ambiguous
            && ReadsAs(m, FILTER_RELAXED, groups, 2, {0}) == Found(2)
  {
    var groups := [Group("ab1", []), Group("ab2", []), Group("ab", [])];
    assert "ab1"[2] == '1' && "ab2"[2] == '2' && |"ab"| == 2;
    assert "ab" <= "ab1" && "ab" <= "ab2";
    assert Extends(groups, 0, 2) && Extends(groups, 1, 2);
    AmbiguousAtFirst(m, groups, 2);
    ScanTyped(Env(m, FILTER_RELAXED, [], 0), groups, 2, {0});
    assert Rivals(FILTER_RELAXED, groups, 2, {0}, 0) == 0;
    assert Rivals(FILTER_RELAXED, groups, 2, {0}, 1) == 0;
    assert Rivals(FILTER_RELAXED, groups, 2, {0}, 2) == 1;
  }

  /** The command "{ab X|abc X}". */
  function Nested(): seq<Group> {
    [Group("ab", [Terminal("X")]), Group("abc", [Terminal("X")])]
  }

  /** Its first keyword with a word. */
  function AbWith(w: Word): Segment {
    Segment(0, [Some("ab"), w])
  }

  lemma NestedScans(m: Matchers, vline: seq<Word>)
    ensures var e, w := Executed(m, FILTER_RELAXED, vline), Some("ab");
            && Scan(e, Nested(), w, {}, false, 0, NO_MATCH, NotFound) == Found(0)
            && Scan(e, Nested(), w, {0}, false, 0, NO_MATCH, NotFound) == Found(1)
  {
    hide Address;
    var groups := Nested();
    assert |"ab"| == 2 && |"abc"| == 3 && "ab" <= "abc";
    var e, w: Word := Executed(m, FILTER_RELAXED, vline), Some("ab");
    assert WordMatch(m, FILTER_RELAXED, "ab", w) == EXACT_MATCH;
    assert WordMatch(m, FILTER_RELAXED, "abc", w) == PARTLY_MATCH;
    assert Scan(e, groups, w, {}, false, 1, EXACT_MATCH, Found(0)) == Found(0);
    assert Scan(e, groups, w, {0}, false, 2, PARTLY_MATCH, Found(1)) == Found(1);
    assert Scan(e, groups, w, {0}, false, 1, NO_MATCH, NotFound) == Found(1);
  }

  /** Heads "ab" and "abc": "ab" typed again is taken for "abc". */
  lemma RepeatTakenForLonger(m: Matchers, u: Word, v: Word)
    requires u.Some? && v.Some?
    ensures var e := Executed(m, FILTER_RELAXED, Flat([AbWith(u), AbWith(v)]));
            e.vline == [Some("ab"), u, Some("ab"), v]
            && ReadKeywords(e, Nested(), 0, {}, map[], true)
               == ReadOut(MATCHER_OK, 4, map[0 := [Normal(u)], 1 := [Normal(v)]])
  {
    hide Scan, WordMatch;
    var groups := Nested();
    var none: seq<Segment> := [];
    assert [AbWith(u), AbWith(v)][1..] == [AbWith(v)] && [AbWith(v)][1..] == none;
    assert Flat([AbWith(v)]) == [Some("ab"), v] + Flat(none) == [Some("ab"), v];
    assert [Some("ab"), u] + [Some("ab"), v] == [Some("ab"), u, Some("ab"), v];
    var e := Executed(m, FILTER_RELAXED, Flat([AbWith(u), AbWith(v)]));
    NestedScans(m, e.vline);
    OneVariable(e, 1);
    OneVariable(e, 3);
    var vec1: ArgsVector := map[0 := [Normal(u)]];
    var vec2: ArgsVector := map[0 := [Normal(u)], 1 := [Normal(v)]];
    assert vec1[1 := [Normal(v)]] == vec2 && map[][0 := [Normal(u)]] == vec1 && {} + {0} == {0};
    assert ReadKeywords(e, groups, 4, {0} + {1}, vec2, true) == ReadOut(MATCHER_OK, 4, vec2);
    assert ReadKeywords(e, groups, 2, {0}, vec1, true) == ReadOut(MATCHER_OK, 4, vec2);
  }

  lemma AnswerToRepeat(m: Matchers, u: Word, v: Word)
    requires !Blank(u) && !Blank(v)
    ensures var a := Answer(m, FILTER_RELAXED, [], Nested(), [], [AbWith(u), AbWith(v)]);
            a.rv == MATCHER_COMPLETE && a.args == Some([u, v])
  {
    hide ReadKeywords, Scan;
    var segs, groups := [AbWith(u), AbWith(v)], Nested();
    RepeatTakenForLonger(m, u, v);
    var e := Executed(m, FILTER_RELAXED, Flat(segs));
    assert [] + Flat(segs) == Flat(segs) && [] + [Keyword(groups)] == [Keyword(groups)];
    var vec: ArgsVector := map[0 := [u], 1 := [v]];
    assert Contributions(groups, 1, vec) == [v];
    assert Contributions(groups, 0, vec) == [u] + [v] == [u, v];
    var none: seq<Word> := [];
    assert [u, v][1..] == [v] && [v][1..] == none && none + [u] == [u] && [u] + [v] == [u, v];
    assert Push(Some(none), u) == Some([u]) && Push(Some([u]), v) == Some([u, v]);
    assert PushAll(Some([u]), [v]) == Some([u, v]) && !Overflows(Some([u]), [v]);
    assert MatchKeyword(e, groups, 0, Some(none)) == Out(MATCHER_OK, 4, Some([u, v]));
    assert MatchTokens(e, [Keyword(groups)], 1, 4, Some([u, v])) == Out(MATCHER_COMPLETE, 4, Some([u, v]));
  }

  /** So a keyword with a longer rival must not be repeated with different words: "ab u ab v" is accepted with u and v
      as the arguments of the command, and the same keywords the other way round with v and u. */
  lemma RepeatedOrderMatters(m: Matchers, u: Word, v: Word)
    requires !Blank(u) && !Blank(v) && u != v
    ensures Heads(Nested()) && PlainArgs(Nested()) && Clear(FILTER_RELAXED, Nested())
    ensures var a := Answer(m, FILTER_RELAXED, [], Nested(), [], [AbWith(u), AbWith(v)]);
            var b := Answer(m, FILTER_RELAXED, [], Nested(), [], [AbWith(v), AbWith(u)]);
            a.rv == b.rv == MATCHER_COMPLETE && a.args == Some([u, v]) && b.args == Some([v, u]) && a.args != b.args
  {
    hide Answer;
    assert |"ab"| == 2 && |"abc"| == 3 && "ab" <= "abc";
    AnswerToRepeat(m, u, v);
    AnswerToRepeat(m, v, u);
    assert [u, v][0] != [v, u][0];
  }

  /** A variable takes any word. */
  lemma OneVariable(e: Env, wi: nat)
    requires wi < |e.vline| <= e.index && e.vline[wi].Some?
    ensures MatchArgs(e, [Terminal("X")], 0, wi, Some([]))
            == ArgsOut(Out(MATCHER_OK, wi + 1, Some([Normal(e.vline[wi])])), false)
  {
    var none: seq<Word> := [];
    assert none + [Normal(e.vline[wi])] == [Normal(e.vline[wi])];
    assert Takes(e.m, e.filter, Terminal("X"), e.vline[wi]);
    OneRead(e, Terminal("X"), wi, none);
  }
}
