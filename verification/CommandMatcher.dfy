/** The matcher of command.c: a cursor over the line, advanced token by token, and an argument vector. */
module CommandMatcher {
  import opened Wrappers
  import opened CommandSpec

  /** argc and argv */
  class ArgVector {
    var argc: nat
    const argv: array<Word>

    ghost predicate Valid()
      reads this, argv
    {
      argc <= CMD_ARGC_MAX <= argv.Length
    }

    ghost function Contents(): seq<Word>
      requires Valid()
      reads this, argv
    {
      argv[..argc]
    }

    constructor ()
      ensures Valid() && Contents() == [] && fresh(argv)
    {
      argc, argv := 0, new Word[CMD_ARGC_MAX + 1](_ => None);
    }
  }

  ghost function Frame(args: ArgVector?): set<object> {
    if args == null then {} else {args, args.argv}
  }

  ghost predicate Ok(args: ArgVector?)
    reads Frame(args)
  {
    args == null || args.Valid()
  }

  ghost function View(args: ArgVector?): Args
    requires Ok(args)
    reads Frame(args)
  {
    if args == null then None else Some(args.Contents())
  }

  /** push_argument: true when there is no room */
  method PushArgument(args: ArgVector?, arg: Word) returns (full: bool)
    requires Ok(args)
    modifies Frame(args)
    ensures Ok(args) && View(args) == Push(old(View(args)), arg)
    ensures full <==> !Fits(old(View(args)))
  {
    if args == null {
      return false;
    }
    if args.argc >= CMD_ARGC_MAX {
      return true;
    }
    ghost var was := args.Contents();
    args.argv[args.argc] := Normal(arg);
    args.argc := args.argc + 1;
    assert args.Contents() == was + [Normal(arg)];
    return false;
  }

  class Matcher {
    const m: Matchers
    const filter: FilterType
    const vline: seq<Word>
    const index: nat
    var wordIndex: nat

    constructor (m: Matchers, filter: FilterType, vline: seq<Word>, index: nat)
      ensures E() == Env(m, filter, vline, index) && wordIndex == 0
    {
      this.m, this.filter, this.vline, this.index, wordIndex := m, filter, vline, index, 0;
    }

    function E(): Env {
      Env(m, filter, vline, index)
    }

    predicate WordsLeft()
      reads this
    {
      wordIndex < |vline|
    }

    /** cmd_matcher_match_terminal */
    method Terminal(cmd: string, args: ArgVector?) returns (rv: MatcherRv)
      requires Ok(args) && this !in Frame(args)
      modifies this, Frame(args)
      ensures Ok(args) && Out(rv, wordIndex, View(args)) == MatchTerminal(E(), cmd, old(wordIndex), old(View(args)))
    {
      if !WordsLeft() {
        return if IsOption(cmd) then MATCHER_OK else MATCHER_INCOMPLETE;
      }
      var word := vline[wordIndex];
      if WordMatch(m, filter, cmd, word) == NO_MATCH {
        return MATCHER_NO_MATCH;
      }
      if IsVararg(cmd) || IsVariable(cmd) || IsOption(cmd) {
        var full := PushArgument(args, word);
        if full {
          return MATCHER_EXCEED_ARGC_MAX;
        }
      }
      wordIndex := wordIndex + 1;
      if IsVararg(cmd) {
        ghost var rest := PushRest(vline[wordIndex..], View(args));
        while WordsLeft()
          invariant Ok(args) && wordIndex <= |vline|
          invariant PushRest(vline[wordIndex..], View(args)) == rest
          decreases |vline| - wordIndex
        {
          assert vline[wordIndex..][1..] == vline[wordIndex + 1..];
          word := vline[wordIndex];
          if !Blank(word) {
            var _ := PushArgument(args, word);
          }
          wordIndex := wordIndex + 1;
        }
      }
      return MATCHER_OK;
    }

    /** cmd_matcher_match_multiple */
    method Multiple(alts: seq<string>, args: ArgVector?) returns (rv: MatcherRv)
      requires Ok(args) && this !in Frame(args)
      modifies this, Frame(args)
      ensures Ok(args) && Out(rv, wordIndex, View(args)) == MatchMultiple(E(), alts, old(wordIndex), old(View(args)))
    {
      if !WordsLeft() {
        return MATCHER_INCOMPLETE;
      }
      var word := vline[wordIndex];
      var best, arg := NO_MATCH, None;
      for i := 0 to |alts|
        invariant best != NO_MATCH <==> exists j :: 0 <= j < i && WordMatch(m, filter, alts[j], word) != NO_MATCH
        invariant best != NO_MATCH ==> arg == word
      {
        var wordMatch := WordMatch(m, filter, alts[i], word);
        if wordMatch > best {
          best, arg := wordMatch, word;
        }
      }
      wordIndex := wordIndex + 1;
      if best == NO_MATCH {
        return MATCHER_NO_MATCH;
      }
      var full := PushArgument(args, arg);
      if full {
        return MATCHER_EXCEED_ARGC_MAX;
      }
      return MATCHER_OK;
    }

    method MatchOne(t: Simple, args: ArgVector?) returns (rv: MatcherRv)
      requires Ok(args) && this !in Frame(args)
      modifies this, Frame(args)
      ensures Ok(args) && Out(rv, wordIndex, View(args)) == MatchSimple(E(), t, old(wordIndex), old(View(args)))
    {
      match t
      case Terminal(cmd) => rv := Terminal(cmd, args);
      case Multiple(alts) => rv := Multiple(alts, args);
    }

    /** The search in cmd_matcher_read_keywords. */
    method ScanKeywords(groups: seq<Group>, word: Word, mask: set<nat>, keep: bool) returns (r: ScanOut)
      ensures r == Scan(E(), groups, word, mask, wordIndex == index && !keep, 0, NO_MATCH, NotFound)
    {
      var best, found := NO_MATCH, NotFound;
      for i := 0 to |groups|
        invariant Scan(E(), groups, word, mask, wordIndex == index && !keep, i, best, found)
                  == Scan(E(), groups, word, mask, wordIndex == index && !keep, 0, NO_MATCH, NotFound)
      {
        if i in mask {
          continue;
        }
        var wordMatch := WordMatch(m, filter, groups[i].head, word);
        if wordMatch == NO_MATCH {
          continue;
        }
        if wordMatch > best {
          best, found := wordMatch, Found(i);
        } else if wordMatch == best {
          if wordIndex != index || keep {
            return Ambiguous;
          }
        }
      }
      return found;
    }

    /** The arguments of a keyword; stop says that reading ends with them. */
    method ReadArgs(tokens: seq<Simple>, args: ArgVector?) returns (rv: MatcherRv, stop: bool)
      requires Ok(args) && this !in Frame(args)
      modifies this, Frame(args)
      ensures Ok(args)
      ensures ArgsOut(Out(rv, wordIndex, View(args)), stop)
              == MatchArgs(E(), tokens, 0, old(wordIndex), old(View(args)))
    {
      for i := 0 to |tokens|
        invariant Ok(args)
        invariant MatchArgs(E(), tokens, i, wordIndex, View(args))
                  == MatchArgs(E(), tokens, 0, old(wordIndex), old(View(args)))
      {
        rv := MatchOne(tokens[i], args);
        if Error(rv) {
          return rv, true;
        }
        if wordIndex > index {
          return MATCHER_OK, true;
        }
      }
      return MATCHER_OK, false;
    }

    /** cmd_matcher_read_keywords. The words of a keyword are collected in a vector of their own; keep is false
        where the caller wants no arguments. */
    method ReadKeywords(groups: seq<Group>, keep: bool) returns (rv: MatcherRv, vec: ArgsVector)
      requires |groups| <= MAX_KEYWORDS
      modifies this
      ensures ReadOut(rv, wordIndex, vec) == CommandSpec.ReadKeywords(E(), groups, old(wordIndex), {}, map[], keep)
    {
      hide MatchArgs, Scan;
      var mask: set<nat> := {};
      vec := map[];
      while true
        invariant CommandSpec.ReadKeywords(E(), groups, wordIndex, mask, vec, keep)
                  == CommandSpec.ReadKeywords(E(), groups, old(wordIndex), {}, map[], keep)
        decreases |vline| - wordIndex
      {
        if !WordsLeft() {
          return MATCHER_OK, vec;
        }
        var found := ScanKeywords(groups, vline[wordIndex], mask, keep);
        if found == Ambiguous {
          return MATCHER_AMBIGUOUS, vec;
        }
        if found == NotFound {
          return MATCHER_NO_MATCH, vec;
        }
        var k := found.k;
        wordIndex := wordIndex + 1;
        if wordIndex > index {
          return MATCHER_OK, vec;
        }
        mask := mask + {k};
        var args: ArgVector? := null;
        if keep {
          args := new ArgVector();
        }
        var stop;
        rv, stop := ReadArgs(groups[k].args, args);
        if args != null {
          vec := vec[k := args.argv[..args.argc]];
        }
        if stop {
          return rv, vec;
        }
      }
    }

    /** cmd_matcher_match_keyword */
    method MatchKeyword(groups: seq<Group>, args: ArgVector?) returns (rv: MatcherRv)
      requires |groups| <= MAX_KEYWORDS && Ok(args) && this !in Frame(args)
      modifies this, Frame(args)
      ensures Ok(args) && Out(rv, wordIndex, View(args))
              == CommandSpec.MatchKeyword(E(), groups, old(wordIndex), old(View(args)))
    {
      hide CommandSpec.ReadKeywords, Contributions, PushAll, Overflows;
      var reader, vec := ReadKeywords(groups, args != null);
      var builder := MATCHER_OK;
      if args != null {
        builder := BuildKeywordArgs(groups, args, vec);
      } else {
        NothingPushed(View(args));
      }
      return if !Error(reader) && Error(builder) then builder else reader;
    }

    /** cmd_element_match */
    method ElementMatch(tokens: seq<Token>, args: ArgVector?) returns (rv: MatcherRv)
      requires Ok(args) && this !in Frame(args) && wordIndex == 0
      requires forall i :: 0 <= i < |tokens| && tokens[i].Keyword? ==> |tokens[i].groups| <= MAX_KEYWORDS
      modifies this, Frame(args)
      ensures Ok(args) && Out(rv, wordIndex, View(args)) == CommandSpec.ElementMatch(E(), tokens, args != null)
    {
      hide CommandSpec.MatchKeyword, MatchSimple;
      if args != null {
        args.argc := 0;
        assert args.Contents() == [];
      }
      for i := 0 to |tokens|
        invariant Ok(args)
        invariant MatchTokens(E(), tokens, i, wordIndex, View(args))
                  == CommandSpec.ElementMatch(E(), tokens, args != null)
      {
        match tokens[i] {
          case One(t) => rv := MatchOne(t, args);
          case Keyword(groups) => rv := MatchKeyword(groups, args);
        }
        if Error(rv) {
          return;
        }
        if wordIndex > index {
          return MATCHER_OK;
        }
      }
      if wordIndex >= |vline| {
        return MATCHER_COMPLETE;
      }
      if wordIndex == |vline| - 1 && Blank(vline[wordIndex]) {
        return MATCHER_COMPLETE;
      }
      return MATCHER_NO_MATCH;
    }
  }

  lemma NothingPushed(args: Args)
    ensures PushAll(args, []) == args && !Overflows(args, [])
  {
  }

  lemma {:induction false} PushAllSplits(args: Args, a: seq<Word>, b: seq<Word>)
    ensures PushAll(args, a + b) == PushAll(PushAll(args, a), b)
    ensures Overflows(args, a + b) <==> Overflows(args, a) || Overflows(PushAll(args, a), b)
    decreases |a|
  {
    if a == [] {
      assert a + b == b;
    } else {
      assert (a + b)[1..] == a[1..] + b;
      PushAllSplits(Push(args, a[0]), a[1..], b);
    }
  }

  /** Each word in turn; a push that fails is remembered and the others are still tried. */
  method PushWords(args: ArgVector, ws: seq<Word>) returns (full: bool)
    requires Ok(args)
    modifies Frame(args)
    ensures Ok(args) && View(args) == PushAll(old(View(args)), ws)
    ensures full <==> Overflows(old(View(args)), ws)
  {
    full := false;
    for j := 0 to |ws|
      invariant Ok(args) && PushAll(View(args), ws[j..]) == PushAll(old(View(args)), ws)
      invariant full || Overflows(View(args), ws[j..]) <==> Overflows(old(View(args)), ws)
    {
      assert ws[j..][1..] == ws[j + 1..];
      var f := PushArgument(args, ws[j]);
      full := full || f;
    }
  }

  /** The words pushed for an absent keyword: one for each token that would have given an argument. */
  method PushSlots(args: ArgVector, tokens: seq<Simple>) returns (full: bool)
    requires Ok(args)
    modifies Frame(args)
    ensures Ok(args) && View(args) == PushAll(old(View(args)), Slots(tokens))
    ensures full <==> Overflows(old(View(args)), Slots(tokens))
  {
    full := false;
    for j := 0 to |tokens|
      invariant Ok(args) && PushAll(View(args), Slots(tokens[j..])) == PushAll(old(View(args)), Slots(tokens))
      invariant full || Overflows(View(args), Slots(tokens[j..])) <==> Overflows(old(View(args)), Slots(tokens))
    {
      assert tokens[j..][1..] == tokens[j + 1..];
      if HasSlot(tokens[j]) {
        assert ([None] + Slots(tokens[j + 1..]))[1..] == Slots(tokens[j + 1..]);
        var f := PushArgument(args, None);
        full := full || f;
      } else {
        assert [] + Slots(tokens[j + 1..]) == Slots(tokens[j + 1..]);
      }
    }
  }

  /** cmd_matcher_build_keyword_args */
  method BuildKeywordArgs(groups: seq<Group>, args: ArgVector, vec: ArgsVector) returns (rv: MatcherRv)
    requires Ok(args)
    modifies Frame(args)
    ensures Ok(args) && View(args) == PushAll(old(View(args)), Contributions(groups, 0, vec))
    ensures rv == if Overflows(old(View(args)), Contributions(groups, 0, vec)) then MATCHER_EXCEED_ARGC_MAX
            else MATCHER_OK
  {
    hide PushAll, Overflows, Slots;
    rv := MATCHER_OK;
    for i := 0 to |groups|
      invariant Ok(args) && (rv == MATCHER_OK || rv == MATCHER_EXCEED_ARGC_MAX)
      invariant PushAll(View(args), Contributions(groups, i, vec))
                == PushAll(old(View(args)), Contributions(groups, 0, vec))
      invariant rv != MATCHER_OK || Overflows(View(args), Contributions(groups, i, vec))
                <==> Overflows(old(View(args)), Contributions(groups, 0, vec))
    {
      var g := groups[i];
      PushAllSplits(View(args), Contribution(g, i in vec, if i in vec then vec[i] else []),
                    Contributions(groups, i + 1, vec));
      var full;
      if g.args == [] {
        full := PushWords(args, [if i in vec then Some(g.head) else None]);
      } else if i in vec {
        full := PushWords(args, vec[i]);
      } else {
        full := PushSlots(args, g.args);
      }
      if full {
        rv := MATCHER_EXCEED_ARGC_MAX;
      }
    }
    NothingPushed(View(args));
  }
}
