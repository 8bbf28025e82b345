/** What a whole line must look like to be the command an element describes, and what each other line is answered. */
module CommandLines {
  import opened CommandOrder
  import opened CommandSpec
  import opened Wrappers

  // ---- Which words suit a token ----

  /** A token that stands for itself: no option, vararg, range or variable. */
  predicate Literal(str: string) {
    str == "" || !(str[0] == '[' || str[0] == '.' || str[0] == '<' || 'A' <= str[0] <= 'Z')
  }

  /** The variables whose words are looked at. */
  predicate Address(str: string) {
    str == "A.B.C.D" || str == "A.B.C.D/M" || str == "X:X::X:X" || str == "X:X::X:X/M"
  }

  /** How well the matcher for such a variable likes a word. */
  function Fit(m: Matchers, str: string, w: string): nat
    requires Address(str)
  {
    if str == "A.B.C.D" then m.ipv4(w) else if str == "A.B.C.D/M" then m.ipv4Prefix(w)
    else if str == "X:X::X:X" then m.ipv6(w) else m.ipv6Prefix(w)
  }

  /** A word suits a literal token that it begins, or in strict mode that it equals; a range that it lies in; an address
      that it fits as far as it goes, or in strict mode entirely; and any other variable. */
  lemma WordSuits(m: Matchers, str: string, w: string)
    requires w != ""
    ensures var relaxed := WordMatch(m, FILTER_RELAXED, str, Some(w)) != NO_MATCH;
            var strict := WordMatch(m, FILTER_STRICT, str, Some(w)) != NO_MATCH;
            && (Literal(str) ==> (relaxed <==> w <= str) && (strict <==> w == str))
            && (str != "" && str[0] == '<' ==> (relaxed <==> m.range(str, w)) && (strict <==> m.range(str, w)))
            && (Address(str) ==>
                  (relaxed <==> Fit(m, str, w) != NO_MATCH) && (strict <==> Fit(m, str, w) == EXACT_MATCH))
            && (!Literal(str) && str[0] != '<' && !Address(str) ==> relaxed && strict)
  {
    assert "A.B.C.D"[0] == 'A' && "A.B.C.D/M"[0] == 'A' && "X:X::X:X"[0] == 'X' && "X:X::X:X/M"[0] == 'X';
  }

  /** A blank word suits every token, but in strict mode a missing one suits none. */
  lemma BlankSuits(m: Matchers, str: string)
    ensures WordMatch(m, FILTER_RELAXED, str, None) == PARTLY_MATCH == WordMatch(m, FILTER_RELAXED, str, Some(""))
    ensures WordMatch(m, FILTER_STRICT, str, None) == NO_MATCH
  {
  }

  // ---- Nothing is left over ----

  lemma {:induction false} ArgsNeverComplete(e: Env, tokens: seq<Simple>, i: nat, wi: nat, args: Args)
    ensures MatchArgs(e, tokens, i, wi, args).out.rv != MATCHER_COMPLETE
    decreases |tokens| - i
  {
    if i < |tokens| {
      var o := MatchSimple(e, tokens[i], wi, args);
      ArgsNeverComplete(e, tokens, i + 1, o.wi, o.args);
    }
  }

  lemma {:induction false} ReadNeverComplete(e: Env, groups: seq<Group>, wi: nat, mask: set<nat>, vec: ArgsVector,
                                             keep: bool)
    ensures ReadKeywords(e, groups, wi, mask, vec, keep).rv != MATCHER_COMPLETE
    decreases |e.vline| - wi
  {
    hide Scan, MatchArgs;
    if wi < |e.vline| && wi + 1 <= e.index {
      var r := Scan(e, groups, e.vline[wi], mask, wi == e.index && !keep, 0, NO_MATCH, NotFound);
      if r.Found? {
        var a := MatchArgs(e, groups[r.k].args, 0, wi + 1, if keep then Some([]) else None);
        ArgsNeverComplete(e, groups[r.k].args, 0, wi + 1, if keep then Some([]) else None);
        var vec1 := if a.out.args.Some? then vec[r.k := a.out.args.value] else vec;
        ReadNeverComplete(e, groups, a.out.wi, mask + {r.k}, vec1, keep);
      }
    }
  }

  lemma TokenNeverComplete(e: Env, t: Token, wi: nat, args: Args)
    ensures MatchToken(e, t, wi, args).rv != MATCHER_COMPLETE
  {
    hide ReadKeywords;
    if t.Keyword? {
      ReadNeverComplete(e, t.groups, wi, {}, map[], args.Some?);
    }
  }

  /** A complete match leaves no word unread, or one that is blank. */
  lemma {:induction false} CompleteLeavesNothing(e: Env, tokens: seq<Token>, i: nat, wi: nat, args: Args)
    ensures var o := MatchTokens(e, tokens, i, wi, args);
            o.rv == MATCHER_COMPLETE ==>
              o.wi >= |e.vline| || (o.wi == |e.vline| - 1 && (e.vline[o.wi] == None || e.vline[o.wi] == Some("")))
    decreases |tokens| - i
  {
    hide MatchToken;
    if i < |tokens| {
      TokenNeverComplete(e, tokens[i], wi, args);
      var o := MatchToken(e, tokens[i], wi, args);
      CompleteLeavesNothing(e, tokens, i + 1, o.wi, o.args);
    }
  }

  // ---- Tokens of one word each ----

  /** The first k tokens take one word each. */
  predicate OneWords(tokens: seq<Token>, k: nat) {
    k <= |tokens| && forall i :: 0 <= i < k ==> tokens[i].One? && OneWord(tokens[i].token)
  }

  /** The first k tokens have words that suit them, or are optional and past the end of the line. */
  ghost predicate Fine(m: Matchers, filter: FilterType, tokens: seq<Token>, line: seq<Word>, k: nat)
    requires OneWords(tokens, k)
  {
    forall i :: 0 <= i < k ==>
      if i < |line| then Takes(m, filter, tokens[i].token, line[i]) else Optional(tokens[i].token)
  }

  /** A token gives an argument if it is a choice, an option, a vararg, a range or a variable. */
  predicate Gives(t: Simple) {
    t.Multiple?
    || (t.cmd != "" && (t.cmd[0] == '[' || t.cmd[0] == '.' || t.cmd[0] == '<' || 'A' <= t.cmd[0] <= 'Z'))
  }

  lemma GivesIffHasSlot(t: Simple)
    ensures Gives(t) <==> HasSlot(t)
  {
  }

  /** An argument; an empty word is passed on as a missing one. */
  function Passed(w: Word): Word {
    if w == Some("") then None else w
  }

  /** The arguments they give. */
  function Kept(tokens: seq<Token>, line: seq<Word>, k: nat): seq<Word>
    requires OneWords(tokens, k)
  {
    if k == 0 then []
    else Kept(tokens, line, k - 1)
         + if k <= |line| && Gives(tokens[k - 1].token) then [Passed(line[k - 1])] else []
  }

  function Lesser(a: nat, b: nat): nat {
    if a < b then a else b
  }

  /** What one such token does with the word at wi, and without one. */
  lemma OneStep(e: Env, t: Simple, wi: nat, acc: seq<Word>)
    requires OneWord(t) && |acc| <= CMD_ARGC_MAX
    ensures var o := MatchSimple(e, t, wi, Some(acc));
            if wi >= |e.vline| then
              if Optional(t) then o == Out(MATCHER_OK, wi, Some(acc)) else o.rv == MATCHER_INCOMPLETE
            else if !Takes(e.m, e.filter, t, e.vline[wi]) then o.rv == MATCHER_NO_MATCH
            else if Gives(t) && |acc| == CMD_ARGC_MAX then o.rv == MATCHER_EXCEED_ARGC_MAX
            else o == Out(MATCHER_OK, wi + 1, Some(acc + if Gives(t) then [Passed(e.vline[wi])] else []))
  {
    hide WordMatch;
    assert acc + [] == acc;
  }

  lemma KeptStep(tokens: seq<Token>, line: seq<Word>, k: nat)
    requires OneWords(tokens, k + 1)
    ensures Kept(tokens, line, k + 1)
            == Kept(tokens, line, k) + if k < |line| && Gives(tokens[k].token) then [Passed(line[k])] else []
  {
  }

  /** The first k tokens of an element, on a line executed. */
  lemma {:induction false} ReachesToken(m: Matchers, filter: FilterType, tokens: seq<Token>, line: seq<Word>, k: nat)
    requires |line| <= UINT_MAX && OneWords(tokens, k)
    requires Fine(m, filter, tokens, line, k) && |Kept(tokens, line, k)| <= CMD_ARGC_MAX
    ensures ElementMatch(Executed(m, filter, line), tokens, true)
            == MatchTokens(Executed(m, filter, line), tokens, k, Lesser(k, |line|), Some(Kept(tokens, line, k)))
  {
    hide MatchSimple, Takes, Gives;
    if k > 0 {
      KeptStep(tokens, line, k - 1);
      ReachesToken(m, filter, tokens, line, k - 1);
      var kept := Kept(tokens, line, k - 1);
      OneStep(Executed(m, filter, line), tokens[k - 1].token, Lesser(k - 1, |line|), kept);
      assert kept + [] == kept;
    }
  }

  /** Token k is the first that does not go with the line: what is answered. */
  lemma StopsAtToken(m: Matchers, filter: FilterType, tokens: seq<Token>, line: seq<Word>, k: nat)
    requires |line| <= UINT_MAX && OneWords(tokens, k + 1)
    requires Fine(m, filter, tokens, line, k) && |Kept(tokens, line, k)| <= CMD_ARGC_MAX
    ensures var rv, t := ElementMatch(Executed(m, filter, line), tokens, true).rv, tokens[k].token;
            && (k < |line| && !Takes(m, filter, t, line[k]) ==> rv == MATCHER_NO_MATCH)
            && (k >= |line| && !Optional(t) ==> rv == MATCHER_INCOMPLETE)
            && (k < |line| && Takes(m, filter, t, line[k]) && Gives(t) && |Kept(tokens, line, k)| == CMD_ARGC_MAX
                ==> rv == MATCHER_EXCEED_ARGC_MAX)
  {
    hide MatchSimple, Takes, Gives, Kept, Fine;
    ReachesToken(m, filter, tokens, line, k);
    OneStep(Executed(m, filter, line), tokens[k].token, Lesser(k, |line|), Kept(tokens, line, k));
  }

  /** Where the first n tokens do not go with the line there is a first that does not. */
  lemma {:induction false} FirstFailure(m: Matchers, filter: FilterType, tokens: seq<Token>, line: seq<Word>, n: nat)
    returns (k: nat)
    requires OneWords(tokens, n)
    requires !Fine(m, filter, tokens, line, n) || |Kept(tokens, line, n)| > CMD_ARGC_MAX
    ensures k < n && Fine(m, filter, tokens, line, k) && |Kept(tokens, line, k)| <= CMD_ARGC_MAX
    ensures var t := tokens[k].token;
            || (k < |line| && !Takes(m, filter, t, line[k]))
            || (k >= |line| && !Optional(t))
            || (k < |line| && Takes(m, filter, t, line[k]) && Gives(t) && |Kept(tokens, line, k)| == CMD_ARGC_MAX)
  {
    hide Takes, Gives;
    if n > 0 {
      if Fine(m, filter, tokens, line, n - 1) && |Kept(tokens, line, n - 1)| <= CMD_ARGC_MAX {
        k := n - 1;
      } else {
        k := FirstFailure(m, filter, tokens, line, n - 1);
      }
    }
  }

  /** No word is left over, or one that is blank. */
  predicate Spent(line: seq<Word>, n: nat) {
    |line| <= n || (|line| == n + 1 && (line[n] == None || line[n] == Some("")))
  }

  /** A line is the command if and only if it has a word that suits each token, but for optional ones at its end,
      nothing or one blank word more, and no more arguments than argv holds. A word more is no match. */
  lemma LineIsCommandIff(m: Matchers, filter: FilterType, tokens: seq<Token>, line: seq<Word>)
    requires |line| <= UINT_MAX && OneWords(tokens, |tokens|)
    ensures var o, n := ElementMatch(Executed(m, filter, line), tokens, true), |tokens|;
            var fits := Fine(m, filter, tokens, line, n) && |Kept(tokens, line, n)| <= CMD_ARGC_MAX;
            && (o.rv == MATCHER_COMPLETE <==> fits && Spent(line, n))
            && (fits && !Spent(line, n) ==> o.rv == MATCHER_NO_MATCH)
            && (fits ==> o.args == Some(Kept(tokens, line, n)))
  {
    hide Takes, Gives, Kept, Fine, MatchSimple, MatchKeyword;
    var n := |tokens|;
    if Fine(m, filter, tokens, line, n) && |Kept(tokens, line, n)| <= CMD_ARGC_MAX {
      ReachesToken(m, filter, tokens, line, n);
    } else {
      var k := FirstFailure(m, filter, tokens, line, n);
      StopsAtToken(m, filter, tokens, line, k);
    }
  }

  // ---- A group of keywords at the end of the element ----

  /** From wi to `to` the line is these keywords, each unseen before and with words that suit its tokens; only at the
      end of the line are optional words left out. */
  ghost predicate Reading(e: Env, groups: seq<Group>, wi: nat, mask: set<nat>, segs: seq<Segment>, to: nat)
    decreases |segs|
  {
    if segs == [] then wi == to
    else
      var s := segs[0];
      && OneKeyword(e, groups, wi, mask, s)
      && Reading(e, groups, wi + |s.words|, mask + {s.key}, segs[1..], to)
  }

  ghost predicate OneKeyword(e: Env, groups: seq<Group>, wi: nat, mask: set<nat>, s: Segment) {
    && s.key < |groups| && 1 <= |s.words| <= 1 + |groups[s.key].args|
    && wi + |s.words| <= |e.vline| && e.vline[wi..wi + |s.words|] == s.words
    && PickedHead(e, groups, s.words[0], mask) == Found(s.key)
    && WordsSuit(e, groups[s.key].args, s.words[1..])
    && (|s.words| == 1 + |groups[s.key].args|
        || (wi + |s.words| == |e.vline| && OptionalFrom(groups[s.key].args, |s.words| - 1)))
  }

  /** The unseen keyword a word is taken for. */
  function PickedHead(e: Env, groups: seq<Group>, word: Word, mask: set<nat>): (r: ScanOut)
    ensures r.Found? ==> r.k < |groups| && r.k !in mask
  {
    Scan(e, groups, word, mask, false, 0, NO_MATCH, NotFound)
  }

  ghost predicate WordsSuit(e: Env, tokens: seq<Simple>, words: seq<Word>) {
    |words| <= |tokens| && forall i :: 0 <= i < |words| ==> Takes(e.m, e.filter, tokens[i], words[i])
  }

  ghost predicate OptionalFrom(tokens: seq<Simple>, n: nat) {
    forall i :: n <= i < |tokens| ==> Optional(tokens[i])
  }

  /** The arguments each keyword gave. */
  ghost function VecOf(groups: seq<Group>, segs: seq<Segment>, vec: ArgsVector): ArgsVector
    requires forall i :: 0 <= i < |segs| ==>
               segs[i].key < |groups| && 1 <= |segs[i].words| <= 1 + |groups[segs[i].key].args|
    decreases |segs|
  {
    if segs == [] then vec else VecOf(groups, segs[1..], vec[segs[0].key := ArgsOf(groups, segs[0])])
  }

  lemma {:induction false} ReadingShape(e: Env, groups: seq<Group>, wi: nat, mask: set<nat>, segs: seq<Segment>,
                                        to: nat)
    requires Reading(e, groups, wi, mask, segs, to)
    ensures forall i :: 0 <= i < |segs| ==>
              segs[i].key < |groups| && 1 <= |segs[i].words| <= 1 + |groups[segs[i].key].args|
    decreases |segs|
  {
    hide Scan, Takes, WordsSuit, OptionalFrom;
    if segs != [] {
      ReadingShape(e, groups, wi + |segs[0].words|, mask + {segs[0].key}, segs[1..], to);
      assert forall i :: 1 <= i < |segs| ==> segs[i] == segs[1..][i - 1];
    }
  }

  /** The group's keywords are of one word a token. */
  lemma PlainGroup(groups: seq<Group>, k: nat)
    requires PlainArgs(groups) && k < |groups|
    ensures |groups[k].args| <= CMD_ARGC_MAX
    ensures forall i :: 0 <= i < |groups[k].args| ==> OneWord(groups[k].args[i])
  {
  }

  lemma KeywordRead(e: Env, groups: seq<Group>, s: Segment, wi: nat, mask: set<nat>, vec: ArgsVector)
    requires PlainArgs(groups) && |e.vline| <= e.index && OneKeyword(e, groups, wi, mask, s)
    ensures ReadKeywords(e, groups, wi, mask, vec, true)
            == ReadKeywords(e, groups, wi + |s.words|, mask + {s.key}, vec[s.key := ArgsOf(groups, s)], true)
  {
    hide MatchArgs, CommandOrder.Taken, Scan, Takes, PlainArgs;
    var tokens, words := groups[s.key].args, s.words[1..];
    PlainGroup(groups, s.key);
    assert e.vline[wi] == e.vline[wi..wi + |s.words|][0] == s.words[0];
    assert e.vline[wi + 1..wi + 1 + |words|] == e.vline[wi..wi + |s.words|][1..] && words[0..] == words;
    ArgsRead(e, tokens, words, 0, wi + 1, []);
    assert tokens[0..|words|] == tokens[..|s.words| - 1];
    assert [] + CommandOrder.Taken(tokens[..|words|], words) == CommandOrder.Taken(tokens[..|words|], words);
  }

  ghost function Seen(segs: seq<Segment>, mask: set<nat>): set<nat>
    decreases |segs|
  {
    if segs == [] then mask else Seen(segs[1..], mask + {segs[0].key})
  }

  /** Keywords that are read leave the rest of the line to be read. */
  lemma {:induction false} ReadUpTo(e: Env, groups: seq<Group>, segs: seq<Segment>, wi: nat, mask: set<nat>,
                                    vec: ArgsVector, to: nat)
    requires PlainArgs(groups) && |e.vline| <= e.index && Reading(e, groups, wi, mask, segs, to)
    requires forall i :: 0 <= i < |segs| ==>
               segs[i].key < |groups| && 1 <= |segs[i].words| <= 1 + |groups[segs[i].key].args|
    ensures ReadKeywords(e, groups, wi, mask, vec, true)
            == ReadKeywords(e, groups, to, Seen(segs, mask), VecOf(groups, segs, vec), true)
    decreases |segs|
  {
    hide ReadKeywords, OneKeyword, PlainArgs, ArgsOf;
    if segs != [] {
      var s := segs[0];
      KeywordRead(e, groups, s, wi, mask, vec);
      assert forall i :: 1 <= i < |segs| ==> segs[i] == segs[1..][i - 1];
      ReadUpTo(e, groups, segs[1..], wi + |s.words|, mask + {s.key}, vec[s.key := ArgsOf(groups, s)], to);
    }
  }

  lemma ReadAtEnd(e: Env, groups: seq<Group>, mask: set<nat>, vec: ArgsVector)
    ensures ReadKeywords(e, groups, |e.vline|, mask, vec, true) == ReadOut(MATCHER_OK, |e.vline|, vec)
  {
  }

  /** Past the end of the line a token that is not optional is missing its word. */
  lemma {:induction false} ArgsMissing(e: Env, tokens: seq<Simple>, i: nat, wi: nat, acc: seq<Word>)
    requires i < |tokens| && |e.vline| == wi <= e.index && !OptionalFrom(tokens, i)
    requires |acc| + |tokens| - i <= CMD_ARGC_MAX && forall j :: i <= j < |tokens| ==> OneWord(tokens[j])
    ensures var a := MatchArgs(e, tokens, i, wi, Some(acc)); a.stop && a.out.rv == MATCHER_INCOMPLETE
    decreases |tokens| - i
  {
    hide MatchSimple;
    OneStep(e, tokens[i], wi, acc);
    if Optional(tokens[i]) {
      ArgsMissing(e, tokens, i + 1, wi, acc);
    }
  }

  /** Up to there words that suit are read. */
  lemma {:induction false} ArgsUpToEnd(e: Env, tokens: seq<Simple>, i: nat, wi: nat, acc: seq<Word>)
    requires i <= |tokens| && wi <= |e.vline| <= e.index && i + (|e.vline| - wi) < |tokens|
    requires !OptionalFrom(tokens, i + (|e.vline| - wi))
    requires forall j :: wi <= j < |e.vline| ==> Takes(e.m, e.filter, tokens[i + (j - wi)], e.vline[j])
    requires |acc| + |tokens| - i <= CMD_ARGC_MAX && forall j :: i <= j < |tokens| ==> OneWord(tokens[j])
    ensures var a := MatchArgs(e, tokens, i, wi, Some(acc)); a.stop && a.out.rv == MATCHER_INCOMPLETE
    decreases |tokens| - i
  {
    hide MatchSimple, Takes, OptionalFrom;
    if wi == |e.vline| {
      ArgsMissing(e, tokens, i, wi, acc);
    } else {
      assert Takes(e.m, e.filter, tokens[i + (wi - wi)], e.vline[wi]);
      OneStep(e, tokens[i], wi, acc);
      ArgsUpToEnd(e, tokens, i + 1, wi + 1, acc + if Gives(tokens[i]) then [Passed(e.vline[wi])] else []);
    }
  }

  /** The words behind a head that could be its arguments. */
  function WordsFor(e: Env, wi: nat, tokens: seq<Simple>): (words: seq<Word>)
    requires wi < |e.vline|
    ensures |words| == Lesser(|tokens|, |e.vline| - wi - 1)
  {
    e.vline[wi + 1..wi + 1 + Lesser(|tokens|, |e.vline| - wi - 1)]
  }

  /** A keyword with a word that does not suit is no match; one that lacks a word it needs is incomplete. */
  lemma KeywordFails(e: Env, groups: seq<Group>, wi: nat, mask: set<nat>, vec: ArgsVector, k: nat)
    requires PlainArgs(groups) && wi < |e.vline| <= e.index && PickedHead(e, groups, e.vline[wi], mask) == Found(k)
    requires k < |groups|
    ensures var tokens := groups[k].args;
            var words, rv := WordsFor(e, wi, tokens), ReadKeywords(e, groups, wi, mask, vec, true).rv;
            && (!WordsSuit(e, tokens, words) ==> rv == MATCHER_NO_MATCH)
            && (WordsSuit(e, tokens, words) && !OptionalFrom(tokens, |words|) ==> rv == MATCHER_INCOMPLETE)
  {
    hide MatchArgs, Scan, Takes, PlainArgs, OptionalFrom;
    PlainGroup(groups, k);
    var tokens, words := groups[k].args, WordsFor(e, wi, groups[k].args);
    if !WordsSuit(e, tokens, words) {
      assert words[0..] == words;
      ArgsRefused(e, tokens, words, 0, wi + 1, []);
    } else if !OptionalFrom(tokens, |words|) {
      AllOptional(tokens, |words|);
      assert forall j :: wi + 1 <= j < |e.vline| ==> e.vline[j] == words[j - wi - 1];
      ArgsUpToEnd(e, tokens, 0, wi + 1, []);
    }
  }

  lemma AllOptional(tokens: seq<Simple>, n: nat)
    ensures n >= |tokens| ==> OptionalFrom(tokens, n)
  {
  }

  /** A word taken for no keyword is no match, and one that may be several is ambiguous. */
  lemma WordFails(e: Env, groups: seq<Group>, wi: nat, mask: set<nat>, vec: ArgsVector)
    requires wi < |e.vline|
    ensures var picked, rv := PickedHead(e, groups, e.vline[wi], mask), ReadKeywords(e, groups, wi, mask, vec, true).rv;
            && (picked == NotFound ==> rv == MATCHER_NO_MATCH)
            && (picked == Ambiguous ==> rv == MATCHER_AMBIGUOUS)
  {
    hide Scan;
  }

  /** Among the first i keywords the best match is found, and no other is as good. */
  ghost predicate BestSoFar(e: Env, groups: seq<Group>, word: Word, mask: set<nat>, i: nat, best: nat, found: ScanOut) {
    && i <= |groups| && !found.Ambiguous? && (found == NotFound <==> best == NO_MATCH)
    && (found.Found? ==> found.k < i && best == Match(e, groups, word, mask, found.k))
    && forall j :: 0 <= j < i && Found(j) != found ==>
         Match(e, groups, word, mask, j) < best || Match(e, groups, word, mask, j) == NO_MATCH
  }

  /** None if no unseen head matches; if several do, the one that matches best, provided that no two match equally
      well. */
  ghost predicate Best(e: Env, groups: seq<Group>, word: Word, mask: set<nat>, r: ScanOut) {
    && (r == NotFound <==> forall j :: 0 <= j < |groups| ==> Match(e, groups, word, mask, j) == NO_MATCH)
    && (r.Found? ==> r.k < |groups| && Match(e, groups, word, mask, r.k) != NO_MATCH
                     && forall j :: 0 <= j < |groups| && j != r.k ==>
                          Match(e, groups, word, mask, j) < Match(e, groups, word, mask, r.k))
    && (r == Ambiguous ==>
          exists j, k :: 0 <= j < k < |groups| &&
                         Match(e, groups, word, mask, j) == Match(e, groups, word, mask, k) != NO_MATCH)
  }

  lemma BestAtEnd(e: Env, groups: seq<Group>, word: Word, mask: set<nat>, best: nat, found: ScanOut)
    requires BestSoFar(e, groups, word, mask, |groups|, best, found)
    ensures Best(e, groups, word, mask, found)
  {
    hide Match;
  }

  lemma BestGoesOn(e: Env, groups: seq<Group>, word: Word, mask: set<nat>, i: nat, best: nat, found: ScanOut)
    requires BestSoFar(e, groups, word, mask, i, best, found) && i < |groups|
    ensures var m := Match(e, groups, word, mask, i);
            && (m < best || m == NO_MATCH ==> BestSoFar(e, groups, word, mask, i + 1, best, found))
            && (m > best ==> BestSoFar(e, groups, word, mask, i + 1, m, Found(i)))
            && (m == best != NO_MATCH ==> Best(e, groups, word, mask, Ambiguous))
  {
    hide Match;
    var m := Match(e, groups, word, mask, i);
    if m == best != NO_MATCH {
      assert Match(e, groups, word, mask, found.k) == m;
    }
  }

  lemma {:induction false} PickedIs(e: Env, groups: seq<Group>, word: Word, mask: set<nat>, i: nat, best: nat,
                                    found: ScanOut)
    requires BestSoFar(e, groups, word, mask, i, best, found)
    ensures Best(e, groups, word, mask, Scan(e, groups, word, mask, false, i, best, found))
    decreases |groups| - i
  {
    hide WordMatch, BestSoFar, Best;
    InRange(e, groups, word, mask, i, best, found);
    if i < |groups| {
      BestGoesOn(e, groups, word, mask, i, best, found);
      var m := Match(e, groups, word, mask, i);
      if m < best || m == NO_MATCH {
        PickedIs(e, groups, word, mask, i + 1, best, found);
      } else if m > best {
        PickedIs(e, groups, word, mask, i + 1, m, Found(i));
      }
    } else {
      BestAtEnd(e, groups, word, mask, best, found);
    }
  }

  lemma InRange(e: Env, groups: seq<Group>, word: Word, mask: set<nat>, i: nat, best: nat, found: ScanOut)
    requires BestSoFar(e, groups, word, mask, i, best, found)
    ensures i <= |groups|
  {
  }

  /** Which keyword a word is taken for. */
  lemma PickedBest(e: Env, groups: seq<Group>, word: Word, mask: set<nat>)
    ensures Best(e, groups, word, mask, PickedHead(e, groups, word, mask))
  {
    hide Scan, Match, Best;
    PickedIs(e, groups, word, mask, 0, NO_MATCH, NotFound);
  }

  /** How well a word matches keyword j, which must not have been seen. */
  function Match(e: Env, groups: seq<Group>, word: Word, mask: set<nat>, j: nat): nat
    requires j < |groups|
  {
    if j in mask then NO_MATCH else WordMatch(e.m, e.filter, groups[j].head, word)
  }

  ghost predicate Shaped(groups: seq<Group>, segs: seq<Segment>) {
    forall i :: 0 <= i < |segs| ==>
      segs[i].key < |groups| && 1 <= |segs[i].words| <= 1 + |groups[segs[i].key].args|
  }

  lemma KeywordAt(e: Env, groups: seq<Group>, wi: nat, mask: set<nat>, k: nat) returns (s: Segment)
    requires wi < |e.vline| && k < |groups| && PickedHead(e, groups, e.vline[wi], mask) == Found(k)
    requires var words := WordsFor(e, wi, groups[k].args);
             WordsSuit(e, groups[k].args, words) && OptionalFrom(groups[k].args, |words|)
    ensures s.key == k && |s.words| == 1 + Lesser(|groups[k].args|, |e.vline| - wi - 1)
    ensures OneKeyword(e, groups, wi, mask, s) && 1 <= |s.words| <= 1 + |groups[s.key].args|
  {
    hide PickedHead, WordsSuit, OptionalFrom;
    var words := WordsFor(e, wi, groups[k].args);
    s := Segment(k, e.vline[wi..wi + 1 + |words|]);
    assert s.words[1..] == words && s.words[0] == e.vline[wi];
  }

  lemma NothingRead(e: Env, groups: seq<Group>, wi: nat, mask: set<nat>)
    ensures Reading(e, groups, wi, mask, [], wi)
  {
  }

  lemma ReadingMore(e: Env, groups: seq<Group>, wi: nat, mask: set<nat>, s: Segment, rest: seq<Segment>, to: nat)
    requires OneKeyword(e, groups, wi, mask, s) && Reading(e, groups, wi + |s.words|, mask + {s.key}, rest, to)
    ensures Reading(e, groups, wi, mask, [s] + rest, to)
  {
    hide OneKeyword;
    assert ([s] + rest)[1..] == rest;
  }

  /** How far a line is read as keywords: to its end exactly when the reading succeeds. */
  lemma {:induction false} ReadingOf(e: Env, groups: seq<Group>, wi: nat, mask: set<nat>, vec: ArgsVector)
    returns (segs: seq<Segment>, to: nat)
    requires PlainArgs(groups) && wi <= |e.vline| <= e.index
    ensures Reading(e, groups, wi, mask, segs, to) && to <= |e.vline|
    ensures ReadKeywords(e, groups, wi, mask, vec, true).rv == MATCHER_OK <==> to == |e.vline|
    decreases |e.vline| - wi
  {
    hide PickedHead, Takes, PlainArgs, ReadKeywords, WordsSuit, OptionalFrom, OneKeyword, WordsFor, Reading, ArgsOf;
    segs, to := [], wi;
    NothingRead(e, groups, wi, mask);
    if wi == |e.vline| {
      ReadAtEnd(e, groups, mask, vec);
    } else {
      WordFails(e, groups, wi, mask, vec);
      var picked := PickedHead(e, groups, e.vline[wi], mask);
      if picked.Found? {
        var tokens := groups[picked.k].args;
        var words := WordsFor(e, wi, tokens);
        KeywordFails(e, groups, wi, mask, vec, picked.k);
        AllOptional(tokens, |words|);
        if WordsSuit(e, tokens, words) && OptionalFrom(tokens, |words|) {
          var s := KeywordAt(e, groups, wi, mask, picked.k);
          KeywordRead(e, groups, s, wi, mask, vec);
          var rest;
          rest, to := ReadingOf(e, groups, wi + |s.words|, mask + {s.key}, vec[s.key := ArgsOf(groups, s)]);
          segs := [s] + rest;
          ReadingMore(e, groups, wi, mask, s, rest, to);
        }
      }
    }
  }

  /** The line from `at` on is keywords to its end, and argv has room for what they give. */
  ghost predicate Whole(e: Env, groups: seq<Group>, at: nat, args: seq<Word>, segs: seq<Segment>) {
    && Reading(e, groups, at, {}, segs, |e.vline|) && Shaped(groups, segs)
    && !Overflows(Some(args), Contributions(groups, 0, VecOf(groups, segs, map[])))
  }

  function PassedAll(ws: seq<Word>): (r: seq<Word>)
    ensures |r| == |ws| && forall i :: 0 <= i < |ws| ==> r[i] == Passed(ws[i])
  {
    seq(|ws|, i requires 0 <= i < |ws| => Passed(ws[i]))
  }

  /** What argv has room for is appended, blank words as missing ones. */
  lemma {:induction false} PushAllIs(args: seq<Word>, ws: seq<Word>)
    requires |args| <= CMD_ARGC_MAX
    ensures Overflows(Some(args), ws) <==> |args| + |ws| > CMD_ARGC_MAX
    ensures !Overflows(Some(args), ws) ==> PushAll(Some(args), ws) == Some(args + PassedAll(ws))
    decreases |ws|
  {
    if ws == [] {
      assert args + PassedAll(ws) == args;
    } else if |args| < CMD_ARGC_MAX {
      PushAllIs(args + [Passed(ws[0])], ws[1..]);
      assert (args + [Passed(ws[0])]) + PassedAll(ws[1..]) == args + PassedAll(ws);
    }
  }

  lemma GroupReached(m: Matchers, filter: FilterType, pre: seq<Token>, groups: seq<Group>, line: seq<Word>)
    requires |line| <= UINT_MAX && OneWords(pre, |pre|)
    ensures OneWords(Element(pre, groups), |pre|)
    ensures var tokens, n := Element(pre, groups), |pre|;
            Fine(m, filter, tokens, line, n) && |Kept(tokens, line, n)| <= CMD_ARGC_MAX ==>
              ElementMatch(Executed(m, filter, line), tokens, true)
              == MatchTokens(Executed(m, filter, line), tokens, n, Lesser(n, |line|), Some(Kept(tokens, line, n)))
  {
    hide MatchTokens, Takes, Fine, Kept;
    var tokens, n := Element(pre, groups), |pre|;
    assert forall i :: 0 <= i < n ==> tokens[i] == pre[i];
    if Fine(m, filter, tokens, line, n) && |Kept(tokens, line, n)| <= CMD_ARGC_MAX {
      ReachesToken(m, filter, tokens, line, n);
    }
  }

  lemma GroupLast(e: Env, pre: seq<Token>, groups: seq<Group>, wi: nat, args: seq<Word>)
    requires |e.vline| <= e.index
    ensures var r := ReadKeywords(e, groups, wi, {}, map[], true);
            var ws, o := Contributions(groups, 0, r.vec), MatchTokens(e, Element(pre, groups), |pre|, wi, Some(args));
            && (r.rv == MATCHER_OK && r.wi == |e.vline| ==>
                  (o.rv == MATCHER_COMPLETE <==> !Overflows(Some(args), ws)) && o.args == PushAll(Some(args), ws))
            && (Error(r.rv) ==> o.rv == r.rv)
  {
    hide ReadKeywords, Contributions, PushAll, Overflows;
    assert Element(pre, groups)[|pre|] == Keyword(groups);
  }

  lemma {:induction false} ReadNeverStops(e: Env, groups: seq<Group>, wi: nat, mask: set<nat>, vec: ArgsVector)
    requires PlainArgs(groups) && wi <= |e.vline| <= e.index
    ensures var r := ReadKeywords(e, groups, wi, mask, vec, true); r.rv != MATCHER_OK ==> Error(r.rv)
  {
    ReadNeverComplete(e, groups, wi, mask, vec, true);
  }

  /** A line is a command that ends in a group of keywords if and only if its first words suit the tokens before the
      group, the others are keywords of the group with words that suit, to the end of the line, and argv has room for
      all arguments. */
  lemma GroupIsCommandIff(m: Matchers, filter: FilterType, pre: seq<Token>, groups: seq<Group>, line: seq<Word>)
    requires |line| <= UINT_MAX && OneWords(pre, |pre|) && PlainArgs(groups)
    ensures OneWords(Element(pre, groups), |pre|)
    ensures var e, tokens, n := Executed(m, filter, line), Element(pre, groups), |pre|;
            var kept := Kept(tokens, line, n);
            ElementMatch(e, tokens, true).rv == MATCHER_COMPLETE
            <==> Fine(m, filter, tokens, line, n) && |kept| <= CMD_ARGC_MAX
                 && exists segs :: Whole(e, groups, Lesser(n, |line|), kept, segs)
    ensures var e, tokens, n := Executed(m, filter, line), Element(pre, groups), |pre|;
            var kept := Kept(tokens, line, n);
            forall segs :: Fine(m, filter, tokens, line, n) && |kept| <= CMD_ARGC_MAX
                           && Whole(e, groups, Lesser(n, |line|), kept, segs) ==>
              ElementMatch(e, tokens, true).args
              == Some(kept + PassedAll(Contributions(groups, 0, VecOf(groups, segs, map[]))))
  {
    hide ElementMatch, MatchTokens, ReadKeywords, Fine, Kept, PlainArgs, Reading, Overflows, Contributions, VecOf,
         Whole;
    var e, tokens, n := Executed(m, filter, line), Element(pre, groups), |pre|;
    GroupReached(m, filter, pre, groups, line);
    if Fine(m, filter, tokens, line, n) && |Kept(tokens, line, n)| <= CMD_ARGC_MAX {
      var at, kept := Lesser(n, |line|), Kept(tokens, line, n);
      GroupLast(e, pre, groups, at, kept);
      ReadNeverStops(e, groups, at, {}, map[]);
      var segs, to := ReadingOf(e, groups, at, {}, map[]);
      if to == |line| {
        WholeIff(e, groups, at, kept, segs);
      }
      forall other | Whole(e, groups, at, kept, other)
        ensures Shaped(groups, other)
        ensures ElementMatch(e, tokens, true).rv == MATCHER_COMPLETE
        ensures ElementMatch(e, tokens, true).args
                == Some(kept + PassedAll(Contributions(groups, 0, VecOf(groups, other, map[]))))
      {
        WholeIsRead(e, groups, at, kept, other);
        PushAllIs(kept, Contributions(groups, 0, VecOf(groups, other, map[])));
      }
    } else {
      var k := FirstFailure(m, filter, tokens, line, n);
      OneWordsLess(tokens, n, k);
      StopsAtToken(m, filter, tokens, line, k);
    }
  }

  lemma OneWordsLess(tokens: seq<Token>, n: nat, k: nat)
    requires OneWords(tokens, n) && k < n
    ensures OneWords(tokens, k + 1)
  {
  }

  lemma WholeIff(e: Env, groups: seq<Group>, at: nat, args: seq<Word>, segs: seq<Segment>)
    requires PlainArgs(groups) && |e.vline| <= e.index && Reading(e, groups, at, {}, segs, |e.vline|)
    ensures var r := ReadKeywords(e, groups, at, {}, map[], true);
            && r.rv == MATCHER_OK && r.wi == |e.vline| && Shaped(groups, segs) && r.vec == VecOf(groups, segs, map[])
            && (Whole(e, groups, at, args, segs) <==> !Overflows(Some(args), Contributions(groups, 0, r.vec)))
  {
    hide ReadKeywords, PlainArgs, Reading, Overflows, Contributions;
    ReadingShape(e, groups, at, {}, segs, |e.vline|);
    ReadUpTo(e, groups, segs, at, {}, map[], |e.vline|);
    ReadAtEnd(e, groups, Seen(segs, {}), VecOf(groups, segs, map[]));
  }

  lemma WholeIsRead(e: Env, groups: seq<Group>, at: nat, args: seq<Word>, segs: seq<Segment>)
    requires PlainArgs(groups) && |e.vline| <= e.index && Whole(e, groups, at, args, segs)
    ensures Shaped(groups, segs)
    ensures var r := ReadKeywords(e, groups, at, {}, map[], true);
            r.rv == MATCHER_OK && r.wi == |e.vline| && !Overflows(Some(args), Contributions(groups, 0, r.vec))
            && r.vec == VecOf(groups, segs, map[])
  {
    hide ReadKeywords, PlainArgs, Reading, Overflows, Contributions;
    WholeIff(e, groups, at, args, segs);
  }

  /** What is answered to a line that goes wrong behind some keywords. */
  lemma GroupStops(m: Matchers, filter: FilterType, pre: seq<Token>, groups: seq<Group>, line: seq<Word>,
                   segs: seq<Segment>, to: nat)
    requires |line| <= UINT_MAX && OneWords(pre, |pre|) && PlainArgs(groups) && OneWords(Element(pre, groups), |pre|)
    requires Fine(m, filter, Element(pre, groups), line, |pre|)
    requires |Kept(Element(pre, groups), line, |pre|)| <= CMD_ARGC_MAX && to < |line|
    requires Reading(Executed(m, filter, line), groups, Lesser(|pre|, |line|), {}, segs, to)
    ensures var e := Executed(m, filter, line);
            var rv := ElementMatch(e, Element(pre, groups), true).rv;
            match PickedHead(e, groups, line[to], Seen(segs, {}))
            case NotFound => rv == MATCHER_NO_MATCH
            case Ambiguous => rv == MATCHER_AMBIGUOUS
            case Found(k) =>
              var tokens := groups[k].args;
              var words := WordsFor(e, to, tokens);
              && (!WordsSuit(e, tokens, words) ==> rv == MATCHER_NO_MATCH)
              && (WordsSuit(e, tokens, words) && !OptionalFrom(tokens, |words|) ==> rv == MATCHER_INCOMPLETE)
  {
    hide ElementMatch, MatchTokens, ReadKeywords, Fine, Kept, PlainArgs, Reading, Overflows, Contributions, VecOf,
         PickedHead, WordsSuit, OptionalFrom;
    var e := Executed(m, filter, line);
    var at, kept := Lesser(|pre|, |line|), Kept(Element(pre, groups), line, |pre|);
    GroupReached(m, filter, pre, groups, line);
    GroupLast(e, pre, groups, at, kept);
    ReadingShape(e, groups, at, {}, segs, to);
    ReadUpTo(e, groups, segs, at, {}, map[], to);
    var picked := PickedHead(e, groups, line[to], Seen(segs, {}));
    WordFails(e, groups, to, Seen(segs, {}), VecOf(groups, segs, map[]));
    if picked.Found? {
      KeywordFails(e, groups, to, Seen(segs, {}), VecOf(groups, segs, map[]), picked.k);
    }
  }

  // ---- A vararg at the end of the element ----

  /** The words of the line that are not blank. */
  function NotBlank(words: seq<Word>): (r: seq<Word>) {
    if words == [] then []
    else (if words[0] == None || words[0] == Some("") then [] else [words[0]]) + NotBlank(words[1..])
  }

  function AtMost(words: seq<Word>, n: nat): seq<Word> {
    words[..Lesser(n, |words|)]
  }

  lemma PushRestStep(words: seq<Word>, args: seq<Word>)
    requires words != [] && |args| <= CMD_ARGC_MAX
    ensures var w := words[0];
            PushRest(words, Some(args))
            == PushRest(words[1..],
                        Some(if w == None || w == Some("") || |args| == CMD_ARGC_MAX then args else args + [w]))
  {
    hide PushRest;
    PushRestUnfold(words, Some(args));
  }

  lemma PushRestUnfold(words: seq<Word>, args: Args)
    requires words != []
    ensures PushRest(words, args)
            == PushRest(words[1..], if Blank(words[0]) then args else Push(args, words[0]))
  {
  }

  lemma AtMostStep(w: Word, r: seq<Word>, n: nat)
    requires n > 0
    ensures AtMost([w] + r, n) == [w] + AtMost(r, n - 1)
  {
  }

  /** Words that no longer fit are dropped, blank ones too. */
  lemma {:induction false} PushRestIs(words: seq<Word>, args: seq<Word>)
    requires |args| <= CMD_ARGC_MAX
    ensures PushRest(words, Some(args)) == Some(args + AtMost(NotBlank(words), CMD_ARGC_MAX - |args|))
    decreases |words|
  {
    if words == [] {
      assert args + AtMost(NotBlank(words), CMD_ARGC_MAX - |args|) == args;
    } else {
      hide PushRest;
      var w, rest, room := words[0], NotBlank(words[1..]), CMD_ARGC_MAX - |args|;
      PushRestStep(words, args);
      if w == None || w == Some("") {
        PushRestIs(words[1..], args);
        assert [] + rest == rest;
      } else if room > 0 {
        PushRestIs(words[1..], args + [w]);
        AtMostStep(w, rest, room);
        assert args + ([w] + AtMost(rest, room - 1)) == (args + [w]) + AtMost(rest, room - 1);
      } else {
        PushRestIs(words[1..], args);
        assert AtMost(NotBlank(words), 0) == [] == AtMost(rest, 0);
      }
    }
  }

  /** A vararg takes the rest of the line: the first word, then the others that are not blank, as far as argv has room;
      without a word, or without room for the first, it does not match. */
  lemma VarargTakesRest(m: Matchers, filter: FilterType, pre: seq<Token>, cmd: string, line: seq<Word>)
    requires |line| <= UINT_MAX && OneWords(pre, |pre|) && cmd != "" && cmd[0] == '.'
    ensures var tokens, n := pre + [One(Terminal(cmd))], |pre|;
            OneWords(tokens, n) &&
            var kept, o := Kept(tokens, line, n), ElementMatch(Executed(m, filter, line), tokens, true);
            && (Fine(m, filter, tokens, line, n) && |kept| <= CMD_ARGC_MAX ==>
                  if |line| <= n then o.rv == MATCHER_INCOMPLETE
                  else if filter == FILTER_STRICT && line[n].None? then o.rv == MATCHER_NO_MATCH
                  else if |kept| == CMD_ARGC_MAX then o.rv == MATCHER_EXCEED_ARGC_MAX
                  else
                    && o.rv == MATCHER_COMPLETE
                    && o.args == Some(kept + [Passed(line[n])]
                                      + AtMost(NotBlank(line[n + 1..]), CMD_ARGC_MAX - |kept| - 1)))
  {
    hide Takes, Fine, Kept, PushRest, MatchKeyword;
    var tokens, n := pre + [One(Terminal(cmd))], |pre|;
    assert forall i :: 0 <= i < n ==> tokens[i] == pre[i];
    var kept := Kept(tokens, line, n);
    if Fine(m, filter, tokens, line, n) && |kept| <= CMD_ARGC_MAX {
      ReachesToken(m, filter, tokens, line, n);
      if n < |line| && |kept| < CMD_ARGC_MAX {
        PushRestIs(line[n + 1..], kept + [Passed(line[n])]);
      }
    }
  }

  // ---- Completing a line at some word ----

  lemma OneStepWithout(e: Env, t: Simple, wi: nat)
    requires OneWord(t) && wi < |e.vline|
    ensures MatchSimple(e, t, wi, None).rv
            == if Takes(e.m, e.filter, t, e.vline[wi]) then MATCHER_OK else MATCHER_NO_MATCH
    ensures Takes(e.m, e.filter, t, e.vline[wi]) ==> MatchSimple(e, t, wi, None) == Out(MATCHER_OK, wi + 1, None)
  {
    hide WordMatch;
  }

  /** Matching for completion looks at the words up to the one to complete, and succeeds if and only if they suit the
      first tokens. */
  lemma {:induction false} CompletesIff(e: Env, tokens: seq<Token>, i: nat)
    requires i <= e.index < |e.vline| && OneWords(tokens, e.index + 1)
    ensures var o := MatchTokens(e, tokens, i, i, None);
            if forall j :: i <= j <= e.index ==> Takes(e.m, e.filter, tokens[j].token, e.vline[j])
            then o == Out(MATCHER_OK, e.index + 1, None) else o.rv == MATCHER_NO_MATCH
    decreases e.index - i
  {
    hide MatchSimple, Takes;
    OneStepWithout(e, tokens[i].token, i);
    if i < e.index && Takes(e.m, e.filter, tokens[i].token, e.vline[i]) {
      CompletesIff(e, tokens, i + 1);
    }
  }
}
