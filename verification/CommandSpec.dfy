/** The command language of command.c: what a command element makes of a line of words. */
module CommandSpec {
  import opened Wrappers

  const CMD_ARGC_MAX: nat := 25
  const UINT_MAX: nat := 0xffff_ffff
  const MAX_KEYWORDS: nat := 31    // the bits of an int that can mark a keyword as seen

  /** A word of the line; an empty slot of the vector has none. */
  type Word = Option<string>

  datatype FilterType = FILTER_RELAXED | FILTER_STRICT

  datatype MatcherRv =
    | MATCHER_OK | MATCHER_COMPLETE | MATCHER_INCOMPLETE | MATCHER_NO_MATCH | MATCHER_AMBIGUOUS
    | MATCHER_EXCEED_ARGC_MAX

  predicate Error(rv: MatcherRv) {
    rv != MATCHER_OK && rv != MATCHER_COMPLETE
  }

  // How well a word matches, weakest first.
  const NO_MATCH: nat := 0
  const EXTEND_MATCH: nat := 1
  const IPV4_PREFIX_MATCH: nat := 2
  const IPV4_MATCH: nat := 3
  const IPV6_PREFIX_MATCH: nat := 4
  const IPV6_MATCH: nat := 5
  const RANGE_MATCH: nat := 6
  const VARARG_MATCH: nat := 7
  const PARTLY_MATCH: nat := 8
  const EXACT_MATCH: nat := 9

  /** The matchers for numbers and addresses, whose insides do not matter here. */
  datatype Matchers = Matchers(range: (string, string) -> bool,
                               ipv4: string -> nat, ipv4Prefix: string -> nat,
                               ipv6: string -> nat, ipv6Prefix: string -> nat)

  datatype Simple = Terminal(cmd: string) | Multiple(alts: seq<string>)

  /** A keyword and the tokens that follow it. */
  datatype Group = Group(head: string, args: seq<Simple>)

  datatype Token = One(token: Simple) | Keyword(groups: seq<Group>)

  function First(s: string): char {
    if s == "" then '\0' else s[0]
  }

  predicate IsOption(s: string) { First(s) == '[' }

  predicate IsVararg(s: string) { First(s) == '.' }

  predicate IsRange(s: string) { First(s) == '<' }

  predicate IsVariable(s: string) { 'A' <= First(s) <= 'Z' || First(s) == '<' }

  predicate Blank(w: Word) { w.None? || w.value == "" }

  /** An address is taken if it fits at all, or in strict mode if it is complete. */
  function Address(filter: FilterType, m: nat, result: nat): nat {
    if (filter == FILTER_RELAXED && m != NO_MATCH) || (filter == FILTER_STRICT && m == EXACT_MATCH) then result
    else NO_MATCH
  }

  /** cmd_word_match */
  function WordMatch(m: Matchers, filter: FilterType, str: string, word: Word): nat {
    if filter == FILTER_RELAXED && Blank(word) then PARTLY_MATCH
    else if word.None? then NO_MATCH
    else
      var w := word.value;
      if IsVararg(str) then VARARG_MATCH
      else if IsRange(str) then (if m.range(str, w) then RANGE_MATCH else NO_MATCH)
      else if str == "X:X::X:X" then Address(filter, m.ipv6(w), IPV6_MATCH)
      else if str == "X:X::X:X/M" then Address(filter, m.ipv6Prefix(w), IPV6_PREFIX_MATCH)
      else if str == "A.B.C.D" then Address(filter, m.ipv4(w), IPV4_MATCH)
      else if str == "A.B.C.D/M" then Address(filter, m.ipv4Prefix(w), IPV4_PREFIX_MATCH)
      else if IsOption(str) || IsVariable(str) then EXTEND_MATCH
      else if filter == FILTER_RELAXED && w <= str then (if str == w then EXACT_MATCH else PARTLY_MATCH)
      else if filter == FILTER_STRICT && str == w then EXACT_MATCH
      else NO_MATCH
  }

  /** What does not change while one element is matched against one line. */
  datatype Env = Env(m: Matchers, filter: FilterType, vline: seq<Word>, index: nat)

  /** The arguments collected so far, or none where the caller wants none. */
  type Args = Option<seq<Word>>

  function Normal(w: Word): Word {
    if Blank(w) then None else w
  }

  /** push_argument succeeds */
  predicate Fits(args: Args) {
    args.None? || |args.value| < CMD_ARGC_MAX
  }

  function Push(args: Args, w: Word): Args {
    if args.None? || |args.value| >= CMD_ARGC_MAX then args else Some(args.value + [Normal(w)])
  }

  /** A step's result, the next word and the arguments. */
  datatype Out = Out(rv: MatcherRv, wi: nat, args: Args)

  /** The rest of the line goes to a vararg token; words that no longer fit are dropped. */
  function PushRest(words: seq<Word>, args: Args): (r: Args)
    ensures args.Some? <==> r.Some?
  {
    if words == [] then args else PushRest(words[1..], if Blank(words[0]) then args else Push(args, words[0]))
  }

  predicate TakesArgument(cmd: string) {
    IsVararg(cmd) || IsVariable(cmd) || IsOption(cmd)
  }

  /** cmd_matcher_match_terminal */
  function MatchTerminal(e: Env, cmd: string, wi: nat, args: Args): (o: Out)
    ensures o.wi >= wi
    ensures args.Some? <==> o.args.Some?
  {
    if wi >= |e.vline| then Out(if IsOption(cmd) then MATCHER_OK else MATCHER_INCOMPLETE, wi, args)
    else
      var word := e.vline[wi];
      if WordMatch(e.m, e.filter, cmd, word) == NO_MATCH then Out(MATCHER_NO_MATCH, wi, args)
      else if TakesArgument(cmd) && !Fits(args) then Out(MATCHER_EXCEED_ARGC_MAX, wi, args)
      else
        var args1 := if TakesArgument(cmd) then Push(args, word) else args;
        if IsVararg(cmd) then Out(MATCHER_OK, |e.vline|, PushRest(e.vline[wi + 1..], args1))
        else Out(MATCHER_OK, wi + 1, args1)
  }

  predicate SomeMatch(m: Matchers, filter: FilterType, alts: seq<string>, word: Word) {
    exists i :: 0 <= i < |alts| && WordMatch(m, filter, alts[i], word) != NO_MATCH
  }

  /** cmd_matcher_match_multiple */
  function MatchMultiple(e: Env, alts: seq<string>, wi: nat, args: Args): (o: Out)
    ensures o.wi >= wi
    ensures args.Some? <==> o.args.Some?
  {
    if wi >= |e.vline| then Out(MATCHER_INCOMPLETE, wi, args)
    else if !SomeMatch(e.m, e.filter, alts, e.vline[wi]) then Out(MATCHER_NO_MATCH, wi + 1, args)
    else if !Fits(args) then Out(MATCHER_EXCEED_ARGC_MAX, wi + 1, args)
    else Out(MATCHER_OK, wi + 1, Push(args, e.vline[wi]))
  }

  function MatchSimple(e: Env, t: Simple, wi: nat, args: Args): (o: Out)
    ensures o.wi >= wi
    ensures args.Some? <==> o.args.Some?
  {
    match t
    case Terminal(cmd) => MatchTerminal(e, cmd, wi, args)
    case Multiple(alts) => MatchMultiple(e, alts, wi, args)
  }

  datatype ScanOut = Found(k: nat) | NotFound | Ambiguous

  /** The search for the keyword a word stands for, from keyword i on. A later match as good as the best so far
      is an ambiguity at once, unless those are tolerated. */
  function Scan(e: Env, groups: seq<Group>, word: Word, mask: set<nat>, tolerate: bool, i: nat, best: nat,
                found: ScanOut): (r: ScanOut)
    ensures r.Found? ==> r == found || (r.k < |groups| && r.k !in mask)
    decreases |groups| - i
  {
    if i >= |groups| then found
    else
      var m := WordMatch(e.m, e.filter, groups[i].head, word);
      if i in mask || m == NO_MATCH then Scan(e, groups, word, mask, tolerate, i + 1, best, found)
      else if m > best then Scan(e, groups, word, mask, tolerate, i + 1, m, Found(i))
      else if m == best && !tolerate then Ambiguous
      else Scan(e, groups, word, mask, tolerate, i + 1, best, found)
  }

  /** The arguments of a keyword; stop says that reading ends with them. */
  datatype ArgsOut = ArgsOut(out: Out, stop: bool)

  function MatchArgs(e: Env, tokens: seq<Simple>, i: nat, wi: nat, args: Args): (r: ArgsOut)
    ensures r.out.wi >= wi
    ensures args.Some? <==> r.out.args.Some?
    decreases |tokens| - i
  {
    if i >= |tokens| then ArgsOut(Out(MATCHER_OK, wi, args), false)
    else
      var o := MatchSimple(e, tokens[i], wi, args);
      if Error(o.rv) then ArgsOut(o, true)
      else if o.wi > e.index then ArgsOut(Out(MATCHER_OK, o.wi, o.args), true)
      else MatchArgs(e, tokens, i + 1, o.wi, o.args)
  }

  /** The words of each keyword that was present, by its place in the command. */
  type ArgsVector = map<nat, seq<Word>>

  datatype ReadOut = ReadOut(rv: MatcherRv, wi: nat, vec: ArgsVector)

  /** cmd_matcher_read_keywords; keep is whether arguments are wanted. */
  function ReadKeywords(e: Env, groups: seq<Group>, wi: nat, mask: set<nat>, vec: ArgsVector, keep: bool): ReadOut
    decreases |e.vline| - wi
  {
    if wi >= |e.vline| then ReadOut(MATCHER_OK, wi, vec)
    else
      match Scan(e, groups, e.vline[wi], mask, wi == e.index && !keep, 0, NO_MATCH, NotFound)
      case Ambiguous => ReadOut(MATCHER_AMBIGUOUS, wi, vec)
      case NotFound => ReadOut(MATCHER_NO_MATCH, wi, vec)
      case Found(k) =>
        if wi + 1 > e.index then ReadOut(MATCHER_OK, wi + 1, vec)
        else
          var a := MatchArgs(e, groups[k].args, 0, wi + 1, if keep then Some([]) else None);
          var vec1 := if a.out.args.Some? then vec[k := a.out.args.value] else vec;
          if a.stop then ReadOut(a.out.rv, a.out.wi, vec1)
          else ReadKeywords(e, groups, a.out.wi, mask + {k}, vec1, keep)
  }

  /** A place in argv is kept for each argument the keyword would take. */
  predicate HasSlot(t: Simple) {
    t.Multiple? || TakesArgument(t.cmd)
  }

  function Slots(tokens: seq<Simple>): seq<Word> {
    if tokens == [] then [] else (if HasSlot(tokens[0]) then [None] else []) + Slots(tokens[1..])
  }

  /** What keyword i adds to argv. */
  function Contribution(g: Group, present: bool, words: seq<Word>): seq<Word> {
    if g.args == [] then [if present then Some(g.head) else None]
    else if present then words
    else Slots(g.args)
  }

  function Contributions(groups: seq<Group>, i: nat, vec: ArgsVector): seq<Word>
    decreases |groups| - i
  {
    if i >= |groups| then []
    else Contribution(groups[i], i in vec, if i in vec then vec[i] else []) + Contributions(groups, i + 1, vec)
  }

  function PushAll(args: Args, ws: seq<Word>): (r: Args)
    ensures args.Some? <==> r.Some?
    decreases |ws|
  {
    if ws == [] then args else PushAll(Push(args, ws[0]), ws[1..])
  }

  /** Some push of these fails. */
  predicate Overflows(args: Args, ws: seq<Word>)
    decreases |ws|
  {
    ws != [] && (!Fits(args) || Overflows(Push(args, ws[0]), ws[1..]))
  }

  /** cmd_matcher_match_keyword: the keywords are read in the order typed, and argv is filled in the order of
      the command. */
  function MatchKeyword(e: Env, groups: seq<Group>, wi: nat, args: Args): (o: Out)
    ensures args.Some? <==> o.args.Some?
  {
    var r := ReadKeywords(e, groups, wi, {}, map[], args.Some?);
    var ws := if args.Some? then Contributions(groups, 0, r.vec) else [];
    Out(if !Error(r.rv) && Overflows(args, ws) then MATCHER_EXCEED_ARGC_MAX else r.rv, r.wi, PushAll(args, ws))
  }

  function MatchToken(e: Env, t: Token, wi: nat, args: Args): Out {
    match t
    case One(s) => MatchSimple(e, s, wi, args)
    case Keyword(groups) => MatchKeyword(e, groups, wi, args)
  }

  /** cmd_element_match from token i on */
  function MatchTokens(e: Env, tokens: seq<Token>, i: nat, wi: nat, args: Args): Out
    decreases |tokens| - i
  {
    if i >= |tokens| then
      var spent := wi >= |e.vline| || (wi == |e.vline| - 1 && Blank(e.vline[wi]));
      Out(if spent then MATCHER_COMPLETE else MATCHER_NO_MATCH, wi, args)
    else
      var o := MatchToken(e, tokens[i], wi, args);
      if Error(o.rv) then o
      else if o.wi > e.index then Out(MATCHER_OK, o.wi, o.args)
      else MatchTokens(e, tokens, i + 1, o.wi, o.args)
  }

  function ElementMatch(e: Env, tokens: seq<Token>, keep: bool): Out {
    MatchTokens(e, tokens, 0, 0, if keep then Some([]) else None)
  }
}
