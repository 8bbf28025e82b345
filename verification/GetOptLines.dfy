/** What a command line means to getopt: options written out as arguments are read back as they were meant. */
module GetOptLines {
  import opened GetOpt
  import opened Sequences
  import opened Wrappers

  // ---- What optstring says of a character ----

  /** The first place of an option character in optstring. */
  predicate FirstAt(optstring: string, c: char, i: nat) {
    i < |optstring| && optstring[i] == c && c != ':' && forall j :: 0 <= j < i ==> optstring[j] != c
  }

  predicate ColonAt(optstring: string, i: nat) {
    i < |optstring| && optstring[i] == ':'
  }

  predicate TakesNone(optstring: string, c: char) {
    exists i: nat :: i < |optstring| && FirstAt(optstring, c, i) && !ColonAt(optstring, i + 1)
  }

  predicate Requires(optstring: string, c: char) {
    exists i: nat :: i < |optstring| &&
                    FirstAt(optstring, c, i) && ColonAt(optstring, i + 1) && !ColonAt(optstring, i + 2)
  }

  predicate Allows(optstring: string, c: char) {
    exists i: nat :: i < |optstring| &&
                    FirstAt(optstring, c, i) && ColonAt(optstring, i + 1) && ColonAt(optstring, i + 2)
  }

  /** No option: not in optstring, or the colon itself. */
  predicate Stray(optstring: string, c: char) {
    c == ':' || c !in optstring
  }

  lemma {:induction false} IndexOfFirst(s: string, c: char, i: nat)
    requires FirstAt(s, c, i)
    ensures IndexOf(s, c) == i
  {
    if i > 0 {
      IndexOfFirst(s[1..], c, i - 1);
    }
  }

  lemma {:induction false} IndexOfMissing(s: string, c: char)
    requires c !in s
    ensures IndexOf(s, c) == -1
  {
    if s != "" {
      IndexOfMissing(s[1..], c);
    }
  }

  lemma NeedIs(optstring: string, c: char)
    ensures Stray(optstring, c) ==> NeedOf(optstring, c) == Unknown
    ensures TakesNone(optstring, c) ==> NeedOf(optstring, c) == Plain
    ensures Requires(optstring, c) ==> NeedOf(optstring, c) == Required
    ensures Allows(optstring, c) ==> NeedOf(optstring, c) == Optional
  {
    if c !in optstring {
      IndexOfMissing(optstring, c);
    }
    forall i: nat | FirstAt(optstring, c, i) ensures IndexOf(optstring, c) == i {
      IndexOfFirst(optstring, c, i);
    }
  }

  // ---- Lines ----

  /** One or two arguments of a line. Before an option with an argument there may be options without one in the same
      element. */
  datatype Item =
    | Flags(cs: string)                            // -abc
    | Attached(cs: string, c: char, arg: string)   // -abofile
    | Separate(cs: string, c: char, arg: string)   // -abo file
    | Without(cs: string, c: char)                 // -abo, where o may do without
    | Operand(word: string)

  /** The characters of the element behind its dash. */
  function Chars(it: Item): string {
    match it
    case Flags(cs) => cs
    case Attached(cs, c, arg) => cs + ([c] + arg)
    case Separate(cs, c, _) => cs + [c]
    case Without(cs, c) => cs + [c]
    case Operand(_) => ""
  }

  function Words(it: Item): (ws: seq<string>)
    ensures ws != []
  {
    match it
    case Operand(word) => [word]
    case Separate(_, _, arg) => ["-" + Chars(it), arg]
    case _ => ["-" + Chars(it)]
  }

  predicate WellWritten(optstring: string, it: Item) {
    match it
    case Flags(cs) => cs != "" && AllFlags(optstring, cs) && cs != "-"
    case Attached(cs, c, arg) =>
      AllFlags(optstring, cs) && arg != "" && (Requires(optstring, c) || Allows(optstring, c))
    case Separate(cs, c, _) => AllFlags(optstring, cs) && Requires(optstring, c) && cs + [c] != "-"
    case Without(cs, c) => AllFlags(optstring, cs) && Allows(optstring, c) && cs + [c] != "-"
    case Operand(word) => word == "" || word == "-" || word[0] != '-'
  }

  /** Options without argument, known or not. */
  predicate AllFlags(optstring: string, cs: string) {
    forall i :: 0 <= i < |cs| ==> TakesNone(optstring, cs[i]) || Stray(optstring, cs[i])
  }

  /** What a call of getopt returns for such a character: itself, or '?' for one that is no option. */
  function Flag(optstring: string, c: char): Opt {
    Opt(if Stray(optstring, c) then '?' else c, None)
  }

  function FlagOpts(optstring: string, cs: string): (os: seq<Opt>)
    ensures |os| == |cs| && forall i :: 0 <= i < |cs| ==> os[i] == Flag(optstring, cs[i])
  {
    seq(|cs|, i requires 0 <= i < |cs| => Flag(optstring, cs[i]))
  }

  /** The options an item stands for. */
  function Meant(optstring: string, it: Item): seq<Opt> {
    match it
    case Flags(cs) => FlagOpts(optstring, cs)
    case Attached(cs, c, arg) => FlagOpts(optstring, cs) + [Opt(c, Some(arg))]
    case Separate(cs, c, arg) => FlagOpts(optstring, cs) + [Opt(c, Some(arg))]
    case Without(cs, c) => FlagOpts(optstring, cs) + [Opt(c, None)]
    case Operand(_) => []
  }

  // ---- Reading one element ----

  lemma OptsOfFlag(optstring: string, c: char, chars: string, more: seq<string>)
    requires TakesNone(optstring, c) || Stray(optstring, c)
    ensures var r := OptsOf(optstring, chars, more);
            OptsOf(optstring, [c] + chars, more) == ([Flag(optstring, c)] + r.0, r.1)
  {
    hide TakesNone, Requires, Allows, NeedOf;
    NeedIs(optstring, c);
    NotBoth(optstring, c);
    assert ([c] + chars)[1..] == chars;
  }

  lemma NotBoth(optstring: string, c: char)
    ensures TakesNone(optstring, c) ==> !Stray(optstring, c)
  {
  }

  lemma {:induction false} OptsOfFlags(optstring: string, cs: string, chars: string, more: seq<string>)
    requires AllFlags(optstring, cs)
    ensures var r := OptsOf(optstring, chars, more);
            OptsOf(optstring, cs + chars, more) == (FlagOpts(optstring, cs) + r.0, r.1)
  {
    hide OptsOf, Flag, TakesNone, Stray;
    var r := OptsOf(optstring, chars, more);
    if cs == "" {
      assert cs + chars == chars;
      assert FlagOpts(optstring, cs) + r.0 == r.0;
    } else {
      OptsOfFlags(optstring, cs[1..], chars, more);
      OptsOfFlag(optstring, cs[0], cs[1..] + chars, more);
      assert cs + chars == [cs[0]] + (cs[1..] + chars);
      assert FlagOpts(optstring, cs) == [Flag(optstring, cs[0])] + FlagOpts(optstring, cs[1..]);
      Associates([Flag(optstring, cs[0])], FlagOpts(optstring, cs[1..]), r.0);
    }
  }

  lemma OptsOfArgument(optstring: string, c: char, arg: string, more: seq<string>)
    ensures OptsOf(optstring, "", more) == ([], 0)
    ensures arg != "" && (Requires(optstring, c) || Allows(optstring, c)) ==>
              OptsOf(optstring, [c] + arg, more) == ([Opt(c, Some(arg))], 0)
    ensures Requires(optstring, c) && more != [] ==> OptsOf(optstring, [c], more) == ([Opt(c, Some(more[0]))], 1)
    ensures Requires(optstring, c) && more == [] ==> OptsOf(optstring, [c], more) == ([Missing(optstring)], 0)
    ensures Allows(optstring, c) ==> OptsOf(optstring, [c], more) == ([Opt(c, None)], 0)
  {
    hide Requires, Allows, NeedOf;
    NeedIs(optstring, c);
    assert ([c] + arg)[1..] == arg && [c][1..] == "";
    assert Requires(optstring, c) ==> optstring != "" by {
      Something(optstring, c);
    }
  }

  lemma Something(optstring: string, c: char)
    ensures Requires(optstring, c) ==> optstring != ""
  {
  }

  /** What a call returns when a required argument is missing: ':' when optstring begins with one. */
  function Missing(optstring: string): Opt {
    Opt(if optstring != "" && optstring[0] == ':' then ':' else '?', None)
  }

  /** How many arguments after its own an item takes. */
  function Taken(it: Item): nat {
    if it.Separate? then 1 else 0
  }

  lemma OptsOfItem(optstring: string, it: Item, rest: seq<string>)
    requires WellWritten(optstring, it) && !it.Operand?
    ensures OptsOf(optstring, Chars(it), Words(it)[1..] + rest) == (Meant(optstring, it), Taken(it))
  {
    hide OptsOf, Flag, TakesNone, Stray, Requires, Allows, AllFlags, FlagOpts;
    var more := Words(it)[1..] + rest;
    match it {
      case Flags(cs) =>
        OptsOfFlags(optstring, cs, "", more);
        OptsOfArgument(optstring, 'x', "", more);
        assert cs + "" == cs && FlagOpts(optstring, cs) + [] == FlagOpts(optstring, cs);
      case Attached(cs, c, arg) =>
        OptsOfFlags(optstring, cs, [c] + arg, more);
        OptsOfArgument(optstring, c, arg, more);
      case Separate(cs, c, arg) =>
        OptsOfFlags(optstring, cs, [c], more);
        OptsOfArgument(optstring, c, "", more);
        assert Words(it)[1..] == [arg];
      case Without(cs, c) =>
        OptsOfFlags(optstring, cs, [c], more);
        OptsOfArgument(optstring, c, "", more);
    }
  }

  // ---- Reading a line ----

  /** The words of an item that belong to the options, and those that are operands. */
  function OptionWords(it: Item): seq<string> {
    if it.Operand? then [] else Words(it)
  }

  function OperandWords(it: Item): seq<string> {
    if it.Operand? then Words(it) else []
  }

  lemma ScanItem(optstring: string, it: Item, rest: seq<string>)
    requires WellWritten(optstring, it)
    ensures var r := Scan(optstring, rest);
            Scan(optstring, Words(it) + rest)
            == Parsed(Meant(optstring, it) + r.opts, OptionWords(it) + r.options, OperandWords(it) + r.operands)
  {
    hide OptsOf, Scan, Meant;
    var args := Words(it) + rest;
    assert args[0] == Words(it)[0] && args[1..] == Words(it)[1..] + rest;
    if it.Operand? {
      OperandHead(optstring, args);
      NothingMeant(optstring, it);
      assert args[1..] == rest && args[..1] == Words(it);
      assert [] + Scan(optstring, rest).opts == Scan(optstring, rest).opts;
    } else {
      ElementLooksLikeOne(optstring, it);
      assert args[0][1..] == Chars(it);
      ScanHead(optstring, args);
      OptsOfItem(optstring, it, rest);
      assert args[1 + Taken(it)..] == rest && args[..1 + Taken(it)] == Words(it);
    }
  }

  lemma NothingMeant(optstring: string, it: Item)
    requires it.Operand?
    ensures Meant(optstring, it) == []
  {
  }

  lemma ElementLooksLikeOne(optstring: string, it: Item)
    requires WellWritten(optstring, it) && !it.Operand?
    ensures Words(it)[0] != "--" && !IsOperand(Words(it)[0]) && Words(it)[0][1..] == Chars(it)
  {
    assert Words(it)[0] == "-" + Chars(it);
    assert Words(it)[0][1..] == Chars(it);
    if it.Attached? {
      assert |Chars(it)| >= 2;
    }
    assert "--"[1..] == "-";
  }

  function LineWords(items: seq<Item>): seq<string> {
    if items == [] then [] else Words(items[0]) + LineWords(items[1..])
  }

  function LineOpts(optstring: string, items: seq<Item>): seq<Opt> {
    if items == [] then [] else Meant(optstring, items[0]) + LineOpts(optstring, items[1..])
  }

  function LineOptions(items: seq<Item>): seq<string> {
    if items == [] then [] else OptionWords(items[0]) + LineOptions(items[1..])
  }

  function LineOperands(items: seq<Item>): seq<string> {
    if items == [] then [] else OperandWords(items[0]) + LineOperands(items[1..])
  }

  lemma {:induction false} LineReadsBack(optstring: string, items: seq<Item>, rest: seq<string>)
    requires forall i :: 0 <= i < |items| ==> WellWritten(optstring, items[i])
    ensures var r := Scan(optstring, rest);
            Scan(optstring, LineWords(items) + rest)
            == Parsed(LineOpts(optstring, items) + r.opts, LineOptions(items) + r.options,
                      LineOperands(items) + r.operands)
  {
    hide Scan, Words, Meant, OptionWords, OperandWords, WellWritten;
    var r := Scan(optstring, rest);
    if items == [] {
      assert LineWords(items) + rest == rest;
      assert LineOpts(optstring, items) + r.opts == r.opts && LineOptions(items) + r.options == r.options;
      assert LineOperands(items) + r.operands == r.operands;
    } else {
      var it, later := items[0], items[1..];
      LineReadsBack(optstring, later, rest);
      ScanItem(optstring, it, LineWords(later) + rest);
      Associates(Words(it), LineWords(later), rest);
      Associates(Meant(optstring, it), LineOpts(optstring, later), r.opts);
      Associates(OptionWords(it), LineOptions(later), r.options);
      Associates(OperandWords(it), LineOperands(later), r.operands);
    }
  }

  lemma ScanEnds(optstring: string, operands: seq<string>)
    ensures Scan(optstring, []) == Parsed([], [], [])
    ensures Scan(optstring, ["--"] + operands) == Parsed([], ["--"], operands)
  {
    assert (["--"] + operands)[..1] == ["--"] && (["--"] + operands)[1..] == operands;
  }

  /** A line written from items is read as those items were meant, in order, and its operands are the words that are
      no options; behind "--" everything is an operand. */
  lemma RoundTrip(optstring: string, items: seq<Item>, operands: seq<string>)
    requires forall i :: 0 <= i < |items| ==> WellWritten(optstring, items[i])
    ensures Scan(optstring, LineWords(items))
            == Parsed(LineOpts(optstring, items), LineOptions(items), LineOperands(items))
    ensures Scan(optstring, LineWords(items) + (["--"] + operands))
            == Parsed(LineOpts(optstring, items), LineOptions(items) + ["--"], LineOperands(items) + operands)
  {
    hide Scan, LineWords, LineOpts, LineOptions, LineOperands, WellWritten;
    ScanEnds(optstring, operands);
    LineReadsBack(optstring, items, []);
    LineReadsBack(optstring, items, ["--"] + operands);
    NothingMore(LineWords(items));
    NothingMore(LineOpts(optstring, items));
    NothingMore(LineOptions(items));
    NothingMore(LineOperands(items));
  }

  lemma NothingMore<T>(s: seq<T>)
    ensures s + [] == s
  {
  }

  /** An option at the end of the line that lacks its required argument is reported as ':' if optstring begins with a
      colon, and as '?' otherwise. */
  lemma MissingAtEnd(optstring: string, items: seq<Item>, cs: string, c: char)
    requires forall i :: 0 <= i < |items| ==> WellWritten(optstring, items[i])
    requires AllFlags(optstring, cs) && Requires(optstring, c) && cs + [c] != "-"
    ensures Scan(optstring, LineWords(items) + ["-" + (cs + [c])]).opts
            == LineOpts(optstring, items) + (FlagOpts(optstring, cs) + [Missing(optstring)])
  {
    hide Scan, OptsOf, LineWords, LineOpts, LineOptions, LineOperands, WellWritten, Requires, AllFlags, FlagOpts,
         Missing;
    var last := ["-" + (cs + [c])];
    LineReadsBack(optstring, items, last);
    OptsOfFlags(optstring, cs, [c], []);
    OptsOfArgument(optstring, c, "", []);
    var element := last[0];
    assert element[1..] == cs + [c] && "--"[1..] == "-" && last[1..] == [];
    ScanHead(optstring, last);
    ScanEnds(optstring, []);
    NothingMore(FlagOpts(optstring, cs) + [Missing(optstring)]);
  }
}
