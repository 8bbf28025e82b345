/** The short-option scanner of getopt.c in PERMUTE mode, rotating argv in place as it goes. */
module GetOpt {
  import opened Sequences
  import opened Wrappers

  // ---- The reference parse: one left-to-right pass over the arguments, no permutation ----

  /** A character getopt returned, with optarg. */
  datatype Opt = Opt(c: char, arg: Option<string>)

  datatype Parsed = Parsed(opts: seq<Opt>, options: seq<string>, operands: seq<string>)

  datatype Need = Unknown | Plain | Required | Optional

  function IndexOf(s: string, c: char): (i: int)
    ensures -1 <= i < |s|
    ensures i >= 0 ==> s[i] == c
  {
    if s == "" then -1
    else if s[0] == c then 0
    else var i := IndexOf(s[1..], c); if i < 0 then -1 else i + 1
  }

  function NeedOf(optstring: string, c: char): Need {
    var i := IndexOf(optstring, c);
    if i < 0 || c == ':' then Unknown
    else if i + 1 < |optstring| && optstring[i + 1] == ':' then
      if i + 2 < |optstring| && optstring[i + 2] == ':' then Optional else Required
    else Plain
  }

  /** Neither the -W extension nor an ordering prefix: plain getopt in PERMUTE mode. */
  predicate Permuting(optstring: string) {
    && (optstring != "" ==> optstring[0] != '-' && optstring[0] != '+')
    && (var i := IndexOf(optstring, 'W'); i >= 0 && i + 1 < |optstring| ==> optstring[i + 1] != ';')
  }

  predicate IsOperand(a: string) {
    a == "" || a[0] != '-' || |a| == 1
  }

  function MissingCode(optstring: string): char {
    if optstring != "" && optstring[0] == ':' then ':' else '?'
  }

  /** The options in the characters of one element, and how many of the arguments after it they use. */
  function OptsOf(optstring: string, chars: string, more: seq<string>): (r: (seq<Opt>, nat))
    ensures r.1 <= |more| && r.1 <= 1
    ensures chars != "" ==> r.0 != []
  {
    if chars == "" then ([], 0)
    else
      var c, tail := chars[0], chars[1..];
      match NeedOf(optstring, c)
      case Unknown => var r := OptsOf(optstring, tail, more); ([Opt('?', None)] + r.0, r.1)
      case Plain => var r := OptsOf(optstring, tail, more); ([Opt(c, None)] + r.0, r.1)
      case Optional => ([Opt(c, if tail != "" then Some(tail) else None)], 0)
      case Required =>
        if tail != "" then ([Opt(c, Some(tail))], 0)
        else if more == [] then ([Opt(MissingCode(optstring), None)], 0)
        else ([Opt(c, Some(more[0]))], 1)
  }

  function Scan(optstring: string, args: seq<string>): (r: Parsed)
    ensures |r.options| + |r.operands| == |args|
  {
    if args == [] then Parsed([], [], [])
    else if args[0] == "--" then Parsed([], args[..1], args[1..])
    else if IsOperand(args[0]) then
      var r := Scan(optstring, args[1..]);
      Parsed(r.opts, r.options, args[..1] + r.operands)
    else
      var (o, u) := OptsOf(optstring, args[0][1..], args[1..]);
      var r := Scan(optstring, args[1 + u..]);
      Parsed(o + r.opts, args[..1 + u] + r.options, r.operands)
  }

  // ---- The reference parse is a stable partition ----

  function Keep(args: seq<string>, marks: seq<bool>, want: bool): seq<string>
    requires |args| == |marks|
  {
    if args == [] then []
    else (if marks[0] == want then args[..1] else []) + Keep(args[1..], marks[1..], want)
  }

  /** Which arguments are options, option arguments or the "--" that ends them. */
  function Marks(optstring: string, args: seq<string>): (m: seq<bool>)
    ensures |m| == |args|
  {
    if args == [] then []
    else if args[0] == "--" then [true] + seq(|args| - 1, _ => false)
    else if IsOperand(args[0]) then [false] + Marks(optstring, args[1..])
    else
      var u := OptsOf(optstring, args[0][1..], args[1..]).1;
      seq(1 + u, _ => true) + Marks(optstring, args[1 + u..])
  }

  lemma {:induction false} KeepAll(args: seq<string>, m: bool)
    ensures var marks := seq(|args|, _ => m);
            Keep(args, marks, m) == args && Keep(args, marks, !m) == []
  {
    if args != [] {
      KeepAll(args[1..], m);
      assert seq(|args|, _ => m)[1..] == seq(|args| - 1, _ => m);
    }
  }

  lemma {:induction false} KeepSplits(a: seq<string>, ma: seq<bool>, b: seq<string>, mb: seq<bool>, want: bool)
    requires |a| == |ma| && |b| == |mb|
    ensures Keep(a + b, ma + mb, want) == Keep(a, ma, want) + Keep(b, mb, want)
  {
    if a == [] {
      assert a + b == b && ma + mb == mb;
    } else {
      KeepSplits(a[1..], ma[1..], b, mb, want);
      assert (a + b)[1..] == a[1..] + b && (ma + mb)[1..] == ma[1..] + mb;
      assert (a + b)[..1] == a[..1] && (ma + mb)[0] == ma[0];
      var x := if ma[0] == want then a[..1] else [];
      assert Keep(a, ma, want) == x + Keep(a[1..], ma[1..], want);
      assert Keep(a + b, ma + mb, want) == x + Keep(a[1..] + b, ma[1..] + mb, want);
    }
  }

  lemma {:induction false} ScanIsStablePartition(optstring: string, args: seq<string>)
    ensures var r := Scan(optstring, args);
            && r.options == Keep(args, Marks(optstring, args), true)
            && r.operands == Keep(args, Marks(optstring, args), false)
  {
    if args != [] {
      var u := if args[0] == "--" || IsOperand(args[0]) then 0 else OptsOf(optstring, args[0][1..], args[1..]).1;
      var head, rest := args[..1 + u], args[1 + u..];
      var mark := args[0] == "--" || !IsOperand(args[0]);
      var ms := if args[0] == "--" then seq(|rest|, _ => false) else Marks(optstring, rest);
      assert args == head + rest;
      assert Marks(optstring, args) == seq(|head|, _ => mark) + ms;
      KeepAll(head, mark);
      if args[0] == "--" { KeepAll(rest, false); } else { ScanIsStablePartition(optstring, rest); }
      KeepSplits(head, seq(|head|, _ => mark), rest, ms, true);
      KeepSplits(head, seq(|head|, _ => mark), rest, ms, false);
    }
  }

  // ---- Parsing the rearranged arguments again ----

  /** The element's last character needs an argument from the next element. */
  predicate WantsMore(optstring: string, chars: string) {
    OptsOf(optstring, chars, [""]).1 == 1
  }

  /** The last element is an option that found no argument left. */
  predicate Starved(optstring: string, args: seq<string>) {
    if args == [] || args[0] == "--" then false
    else if IsOperand(args[0]) then Starved(optstring, args[1..])
    else
      var u := OptsOf(optstring, args[0][1..], args[1..]).1;
      if u == 0 && args[1..] == [] && WantsMore(optstring, args[0][1..]) then true
      else Starved(optstring, args[1 + u..])
  }

  predicate EndsByDashes(optstring: string, args: seq<string>) {
    if args == [] then false
    else if args[0] == "--" then true
    else if IsOperand(args[0]) then EndsByDashes(optstring, args[1..])
    else EndsByDashes(optstring, args[1 + OptsOf(optstring, args[0][1..], args[1..]).1..])
  }

  lemma {:induction false} OptsDependOnNext(optstring: string, chars: string, more: seq<string>, more': seq<string>)
    ensures OptsOf(optstring, chars, more).1 == if WantsMore(optstring, chars) && more != [] then 1 else 0
    ensures !WantsMore(optstring, chars) || (more != [] && more' != [] && more[0] == more'[0])
            ==> OptsOf(optstring, chars, more) == OptsOf(optstring, chars, more')
  {
    if chars != "" && (NeedOf(optstring, chars[0]).Unknown? || NeedOf(optstring, chars[0]).Plain?) {
      OptsDependOnNext(optstring, chars[1..], more, more');
    }
  }

  lemma {:induction false} OnlyOperands(optstring: string, xs: seq<string>)
    requires forall x :: x in xs ==> IsOperand(x)
    ensures Scan(optstring, xs) == Parsed([], [], xs)
  {
    if xs != [] {
      assert xs[0] in xs && forall x :: x in xs[1..] ==> x in xs;
      OnlyOperands(optstring, xs[1..]);
      assert xs[..1] + xs[1..] == xs;
    }
  }

  lemma {:induction false} OperandsAreOperands(optstring: string, args: seq<string>)
    requires !EndsByDashes(optstring, args)
    ensures forall x :: x in Scan(optstring, args).operands ==> IsOperand(x)
  {
    if args != [] {
      if IsOperand(args[0]) { OperandsAreOperands(optstring, args[1..]); }
      else { OperandsAreOperands(optstring, args[1 + OptsOf(optstring, args[0][1..], args[1..]).1..]); }
    }
  }

  lemma ScanHead(optstring: string, args: seq<string>)
    requires args != [] && args[0] != "--" && !IsOperand(args[0])
    ensures var (o, u) := OptsOf(optstring, args[0][1..], args[1..]);
            var r := Scan(optstring, args[1 + u..]);
            Scan(optstring, args) == Parsed(o + r.opts, args[..1 + u] + r.options, r.operands)
  {
  }

  lemma HeadSlices(args: seq<string>, u: nat, rest: seq<string>)
    requires 1 + u <= |args|
    ensures var again := args[..1 + u] + rest;
            && again[0] == args[0] && again[..1 + u] == args[..1 + u] && again[1 + u..] == rest
            && (u > 0 ==> again[1..] != [] && again[1..][0] == args[1..][0])
  {
  }

  /** One option element in front of the rest reads the same whatever follows its own arguments. */
  lemma HeadRescans(optstring: string, args: seq<string>, rest: seq<string>)
    requires args != [] && args[0] != "--" && !IsOperand(args[0])
    requires var u := OptsOf(optstring, args[0][1..], args[1..]).1; u == 1 || !WantsMore(optstring, args[0][1..])
    ensures var (o, u) := OptsOf(optstring, args[0][1..], args[1..]);
            var r := Scan(optstring, rest);
            Scan(optstring, args[..1 + u] + rest) == Parsed(o + r.opts, args[..1 + u] + r.options, r.operands)
  {
    hide Scan, OptsOf, WantsMore;
    var (o, u) := OptsOf(optstring, args[0][1..], args[1..]);
    var again := args[..1 + u] + rest;
    HeadSlices(args, u, rest);
    OptsDependOnNext(optstring, args[0][1..], args[1..], again[1..]);
    ScanHead(optstring, again);
  }

  /** The options of a parse followed by xs, scanned again: the first element, then the rest. */
  lemma RescanHead(optstring: string, args: seq<string>, xs: seq<string>)
    requires args != [] && args[0] != "--" && !IsOperand(args[0])
    requires var u := OptsOf(optstring, args[0][1..], args[1..]).1; u == 1 || !WantsMore(optstring, args[0][1..])
    ensures var (o, u) := OptsOf(optstring, args[0][1..], args[1..]);
            var r := Scan(optstring, Scan(optstring, args[1 + u..]).options + xs);
            Scan(optstring, Scan(optstring, args).options + xs)
                == Parsed(o + r.opts, args[..1 + u] + r.options, r.operands)
  {
    hide Scan, OptsOf, WantsMore;
    var u := OptsOf(optstring, args[0][1..], args[1..]).1;
    var r := Scan(optstring, args[1 + u..]);
    ScanHead(optstring, args);
    HeadRescans(optstring, args, r.options + xs);
    assert args[..1 + u] + (r.options + xs) == (args[..1 + u] + r.options) + xs;
  }

  lemma NotStarvedHead(optstring: string, args: seq<string>)
    requires args != [] && args[0] != "--" && !IsOperand(args[0])
    ensures var u := OptsOf(optstring, args[0][1..], args[1..]).1;
            if u == 0 && args[1..] == [] && WantsMore(optstring, args[0][1..]) then Starved(optstring, args)
            else
              && (Starved(optstring, args) <==> Starved(optstring, args[1 + u..]))
              && (u == 1 || !WantsMore(optstring, args[0][1..]))
  {
    OptsDependOnNext(optstring, args[0][1..], args[1..], []);
  }

  lemma OperandHead(optstring: string, args: seq<string>)
    requires args != [] && IsOperand(args[0])
    ensures var r := Scan(optstring, args[1..]);
            Scan(optstring, args) == Parsed(r.opts, r.options, args[..1] + r.operands)
    ensures Starved(optstring, args) <==> Starved(optstring, args[1..])
    ensures EndsByDashes(optstring, args) <==> EndsByDashes(optstring, args[1..])
  {
  }

  lemma DashesLater(optstring: string, args: seq<string>)
    requires args != [] && args[0] != "--" && !IsOperand(args[0])
    ensures var u := OptsOf(optstring, args[0][1..], args[1..]).1;
            EndsByDashes(optstring, args) <==> EndsByDashes(optstring, args[1 + u..])
  {
  }

  lemma RescanNothing(optstring: string, xs: seq<string>)
    requires EndsByDashes(optstring, []) || forall x :: x in xs ==> IsOperand(x)
    ensures var r := Scan(optstring, []);
            Scan(optstring, r.options + xs) == Parsed(r.opts, r.options, xs)
  {
    assert [] + xs == xs;
    OnlyOperands(optstring, xs);
  }

  lemma RescanDashes(optstring: string, args: seq<string>, xs: seq<string>)
    requires args != [] && args[0] == "--"
    ensures var r := Scan(optstring, args);
            Scan(optstring, r.options + xs) == Parsed(r.opts, r.options, xs)
  {
    assert (args[..1] + xs)[1..] == xs && (args[..1] + xs)[..1] == args[..1];
  }

  lemma {:induction false} RescanSame(optstring: string, args: seq<string>, xs: seq<string>)
    requires !Starved(optstring, args)
    requires EndsByDashes(optstring, args) || forall x :: x in xs ==> IsOperand(x)
    ensures var r := Scan(optstring, args);
            Scan(optstring, r.options + xs) == Parsed(r.opts, r.options, xs)
  {
    hide OptsOf, WantsMore, Scan, Starved, EndsByDashes;
    if args == [] {
      RescanNothing(optstring, xs);
    } else if args[0] == "--" {
      RescanDashes(optstring, args, xs);
    } else if IsOperand(args[0]) {
      OperandHead(optstring, args);
      RescanSame(optstring, args[1..], xs);
    } else {
      ScanHead(optstring, args);
      NotStarvedHead(optstring, args);
      DashesLater(optstring, args);
      RescanSame(optstring, args[1 + OptsOf(optstring, args[0][1..], args[1..]).1..], xs);
      RescanHead(optstring, args, xs);
    }
  }

  lemma StarvedGrabs(optstring: string, args: seq<string>, xs: seq<string>)
    requires |args| == 1 && args[0] != "--" && !IsOperand(args[0]) && WantsMore(optstring, args[0][1..]) && xs != []
    ensures |Scan(optstring, Scan(optstring, args).options + xs).options| > |Scan(optstring, args).options|
  {
    OptsDependOnNext(optstring, args[0][1..], xs, []);
    OptsDependOnNext(optstring, args[0][1..], [], []);
    hide OptsOf, WantsMore;
    assert args[1..] == [] && Scan(optstring, args).options == args;
    assert (args + xs)[1..] == xs;
  }

  lemma StarvedIsNotDone(optstring: string, args: seq<string>)
    requires Starved(optstring, args)
    ensures args != [] && args[0] != "--"
  {
  }

  lemma {:induction false} RescanGrabs(optstring: string, args: seq<string>, xs: seq<string>)
    requires Starved(optstring, args) && xs != []
    ensures |Scan(optstring, Scan(optstring, args).options + xs).options| > |Scan(optstring, args).options|
  {
    hide OptsOf, WantsMore, Scan, Starved;
    StarvedIsNotDone(optstring, args);
    if IsOperand(args[0]) {
      OperandHead(optstring, args);
      RescanGrabs(optstring, args[1..], xs);
    } else {
      NotStarvedHead(optstring, args);
      var u := OptsOf(optstring, args[0][1..], args[1..]).1;
      if u == 0 && args[1..] == [] && WantsMore(optstring, args[0][1..]) {
        StarvedGrabs(optstring, args, xs);
      } else {
        ScanHead(optstring, args);
        RescanGrabs(optstring, args[1 + u..], xs);
        RescanHead(optstring, args, xs);
      }
    }
  }

  /** Scanning the rearranged argv again gives the same parse, unless a final option lacked its argument
      while operands were present: then it would take the first operand. */
  lemma RescanIff(optstring: string, args: seq<string>)
    ensures var r := Scan(optstring, args);
            Scan(optstring, r.options + r.operands) == r
            <==> !(Starved(optstring, args) && r.operands != [])
  {
    var r := Scan(optstring, args);
    if Starved(optstring, args) {
      if r.operands != [] {
        RescanGrabs(optstring, args, r.operands);
      } else {
        ScanIsStablePartition(optstring, args);
        KeptAll(args, Marks(optstring, args));
        assert r.options + r.operands == r.options;
      }
    } else {
      if !EndsByDashes(optstring, args) { OperandsAreOperands(optstring, args); }
      RescanSame(optstring, args, r.operands);
    }
  }

  /** "x -a" with optstring "a:": the option lacks its argument, and on the rearranged "-a x" it takes "x". */
  lemma RescanFails()
    ensures var r := Scan("a:", ["x", "-a"]);
            && Starved("a:", ["x", "-a"]) && r.options == ["-a"] && r.operands == ["x"]
            && Scan("a:", r.options + r.operands) != r
  {
    var none: seq<string> := [];
    assert ["x", "-a"][1..] == ["-a"] && ["-a"][1..] == none;
    assert "-a"[1..] == "a";
    assert OptsOf("a:", "a", none).1 == 0 && WantsMore("a:", "a");
    assert Starved("a:", ["-a"]);
    assert Scan("a:", ["-a"]).options == ["-a"] && Scan("a:", ["-a"]).operands == none;
    assert Scan("a:", ["x", "-a"]).options == ["-a"] && Scan("a:", ["x", "-a"]).operands == ["x"];
    RescanIff("a:", ["x", "-a"]);
  }

  lemma {:induction false} KeptAll(args: seq<string>, marks: seq<bool>)
    requires |args| == |marks| && Keep(args, marks, false) == []
    ensures Keep(args, marks, true) == args
  {
    if args != [] { KeptAll(args[1..], marks[1..]); }
  }

  // ---- exchange ----

  /** s with its blocks [b, m) and [m, t) exchanged. */
  function Rotated<T>(s: seq<T>, b: nat, m: nat, t: nat): seq<T>
    requires b <= m <= t <= |s|
  {
    s[..b] + s[m..t] + s[b..m] + s[t..]
  }

  lemma Blocks<T>(s: seq<T>, p: seq<T>, x: seq<T>, y: seq<T>, z: seq<T>)
    requires s == p + x + y + z
    ensures Rotated(s, |p|, |p| + |x|, |p| + |x| + |y|) == p + y + x + z
  {
    var b, m, t := |p|, |p| + |x|, |p| + |x| + |y|;
    assert s[..b] == p && s[b..m] == x && s[m..t] == y && s[t..] == z;
  }

  /** Swapping the short bottom block with the far end of the top block leaves a smaller rotation. */
  lemma ShortBottom<T>(s: seq<T>, s': seq<T>, p: seq<T>, x: seq<T>, y: seq<T>, z: seq<T>, e: seq<T>)
    requires s == p + x + y + z + e && s' == p + z + y + x + e && |x| == |z|
    ensures var b := |p|; var m := b + |x|; var t := m + |y| + |z|;
            Rotated(s', b, m, t - |x|) == Rotated(s, b, m, t)
  {
    hide Rotated;
    assert s == p + x + (y + z) + e && s' == p + z + y + (x + e);
    Blocks(s, p, x, y + z, e);
    Blocks(s', p, z, y, x + e);
    assert p + (y + z) + x + e == p + y + z + (x + e);
  }

  /** Swapping the short top block with the near end of the bottom block leaves a smaller rotation. */
  lemma ShortTop<T>(s: seq<T>, s': seq<T>, p: seq<T>, x: seq<T>, y: seq<T>, z: seq<T>, e: seq<T>)
    requires s == p + x + y + z + e && s' == p + z + y + x + e && |x| == |z|
    ensures var b := |p|; var m := b + |x| + |y|; var t := m + |z|;
            Rotated(s', b + |z|, m, t) == Rotated(s, b, m, t)
  {
    hide Rotated;
    assert s == p + (x + y) + z + e && s' == (p + z) + y + x + e;
    Blocks(s, p, x + y, z, e);
    Blocks(s', p + z, y, x, e);
    assert p + z + (x + y) + e == (p + z) + x + y + e;
  }

  /** s with the equally long stretches at i and j exchanged. */
  function Swapped<T>(s: seq<T>, i: nat, j: nat, len: nat): (r: seq<T>)
    requires i + len <= j && j + len <= |s|
    ensures |r| == |s|
  {
    s[..i] + s[j..j + len] + s[i + len..j] + s[i..i + len] + s[j + len..]
  }

  /** Where the element at n comes from. */
  function Source(i: nat, j: nat, len: nat, n: nat): nat
    requires i + len <= j
  {
    if i <= n < i + len then n + (j - i) else if j <= n < j + len then n - (j - i) else n
  }

  lemma SwappedAt<T>(s: seq<T>, i: nat, j: nat, len: nat, n: nat)
    requires i + len <= j && j + len <= |s| && n < |s|
    ensures Swapped(s, i, j, len)[n] == s[Source(i, j, len, n)]
  {
  }

  method SwapBlocks<T>(a: array<T>, i: nat, j: nat, len: nat)
    requires i + len <= j && j + len <= a.Length
    modifies a
    ensures a[..] == Swapped(old(a[..]), i, j, len)
  {
    hide Swapped;
    ghost var s := a[..];
    for k := 0 to len
      invariant forall n: nat :: n < a.Length ==> a[n] == s[Source(i, j, k, n)]
    {
      a[i + k], a[j + k] := a[j + k], a[i + k];
    }
    forall n: nat | n < a.Length ensures a[n] == Swapped(s, i, j, len)[n] {
      SwappedAt(s, i, j, len, n);
    }
  }

  lemma FiveBlocks<T>(s: seq<T>, i: nat, j: nat, k: nat, l: nat)
    requires i <= j <= k <= l <= |s|
    ensures s == s[..i] + s[i..j] + s[j..k] + s[k..l] + s[l..]
  {
  }

  lemma RotatedDone<T>(s: seq<T>, b: nat, m: nat, t: nat)
    requires b <= m <= t <= |s| && (b == m || m == t)
    ensures Rotated(s, b, m, t) == s
  {
  }

  lemma RotateShortBottom<T>(s: seq<T>, b: nat, m: nat, t: nat)
    requires b <= m <= t <= |s| && m - b <= t - m
    ensures var len := m - b;
            Rotated(Swapped(s, b, t - len, len), b, m, t - len) == Rotated(s, b, m, t)
  {
    hide Rotated;
    var len := m - b;
    FiveBlocks(s, b, m, t - len, t);
    var s' := Swapped(s, b, t - len, len);
    assert b + len == m && t - len + len == t;
    ShortBottom(s, s', s[..b], s[b..m], s[m..t - len], s[t - len..t], s[t..]);
  }

  lemma RotateShortTop<T>(s: seq<T>, b: nat, m: nat, t: nat)
    requires b <= m <= t <= |s| && t - m <= m - b
    ensures var len := t - m;
            Rotated(Swapped(s, b, m, len), b + len, m, t) == Rotated(s, b, m, t)
  {
    hide Rotated;
    var len := t - m;
    FiveBlocks(s, b, b + len, m, t);
    var s' := Swapped(s, b, m, len);
    assert m + len == t;
    ShortTop(s, s', s[..b], s[b..b + len], s[b + len..m], s[m..t], s[t..]);
  }

  /** The loop of exchange: each round puts the shorter block into place. */
  method ExchangeBlocks<T>(a: array<T>, first: nat, middle: nat, last: nat)
    requires first <= middle <= last <= a.Length
    modifies a
    ensures a[..] == Rotated(old(a[..]), first, middle, last)
  {
    hide Rotated, Swapped;
    var bottom: nat, top: nat := first, last;
    while top > middle && middle > bottom
      invariant bottom <= middle <= top <= a.Length
      invariant Rotated(a[..], bottom, middle, top) == Rotated(old(a[..]), first, middle, last)
      decreases top - bottom
    {
      if top - middle > middle - bottom {
        var len := middle - bottom;
        RotateShortBottom(a[..], bottom, middle, top);
        SwapBlocks(a, bottom, top - len, len);
        top := top - len;
      } else {
        var len := top - middle;
        RotateShortTop(a[..], bottom, middle, top);
        SwapBlocks(a, bottom, middle, len);
        bottom := bottom + len;
      }
    }
    RotatedDone(a[..], bottom, middle, top);
  }

  // ---- Where a scan in progress will end ----

  /** Operands skipped so far are s[f..l]; options seen after them are s[l..i]; s[i..] is unread. */
  function GoalOf(optstring: string, s: seq<string>, f: nat, l: nat, i: nat): Parsed
    requires f <= l <= i <= |s|
  {
    var r := Scan(optstring, s[i..]);
    Parsed(r.opts, s[..f] + s[l..i] + r.options, s[f..l] + r.operands)
  }

  /** The same while `chars` of the element s[i] are still to be read. */
  function GoalMid(optstring: string, s: seq<string>, f: nat, l: nat, i: nat, chars: string): Parsed
    requires f <= l <= i < |s|
  {
    var (o, u) := OptsOf(optstring, chars, s[i + 1..]);
    var g := GoalOf(optstring, s, f, l, i + 1 + u);
    Parsed(o + g.opts, g.options, g.operands)
  }

  function GoalAt(optstring: string, s: seq<string>, f: nat, l: nat, i: nat, chars: string): Parsed
    requires f <= l <= i <= |s| && (chars != "" ==> i < |s|)
  {
    if chars == "" then GoalOf(optstring, s, f, l, i) else GoalMid(optstring, s, f, l, i, chars)
  }

  lemma GoalAfterExchange(optstring: string, s: seq<string>, f: nat, l: nat, i: nat)
    requires f <= l <= i <= |s|
    ensures var s' := Rotated(s, f, l, i);
            |s'| == |s| && GoalOf(optstring, s', f + (i - l), i, i) == GoalOf(optstring, s, f, l, i)
  {
    hide Scan;
    var s' := Rotated(s, f, l, i);
    assert s'[i..] == s[i..] && s'[..f + (i - l)] == s[..f] + s[l..i] && s'[f + (i - l)..i] == s[f..l];
    assert s'[i..i] == [];
  }

  lemma GoalWithoutOperands(optstring: string, s: seq<string>, f: nat, i: nat)
    requires f <= i <= |s|
    ensures GoalOf(optstring, s, f, f, i) == GoalOf(optstring, s, i, i, i)
  {
    assert s[..f] + s[f..i] == s[..i] && s[i..i] == [] == s[f..f];
    assert s[..i] + s[i..i] == s[..i];
  }

  lemma GoalSkips(optstring: string, s: seq<string>, f: nat, i: nat)
    requires f <= i < |s| && IsOperand(s[i])
    ensures GoalOf(optstring, s, f, i + 1, i + 1) == GoalOf(optstring, s, f, i, i)
  {
    var r := Scan(optstring, s[i + 1..]);
    assert s[i..][1..] == s[i + 1..] && s[i..][0] == s[i];
    assert s[i..i] == [] == s[i + 1..i + 1];
    assert s[f..i] + (s[i..][..1] + r.operands) == s[f..i + 1] + r.operands;
  }

  lemma GoalAtEnd(optstring: string, s: seq<string>, f: nat)
    requires f <= |s|
    ensures GoalOf(optstring, s, f, |s|, |s|) == Parsed([], s[..f], s[f..])
  {
  }

  /** "--" joins the options; everything after it is an operand. */
  lemma GoalAtDashes(optstring: string, s: seq<string>, f: nat, i: nat)
    requires f <= i < |s| && s[i] == "--"
    ensures var s' := Rotated(s, f, i, i + 1);
            |s'| == |s| && GoalOf(optstring, s, f, i, i) == Parsed([], s'[..f + 1], s'[f + 1..])
  {
    var s' := Rotated(s, f, i, i + 1);
    assert s[i..][0] == "--" && s[i..][1..] == s[i + 1..];
    assert s'[..f + 1] == s[..f] + s[i..i] + s[i..][..1];
    assert s'[f + 1..] == s[f..i] + s[i + 1..];
  }

  lemma GoalOpens(optstring: string, s: seq<string>, f: nat, l: nat, i: nat)
    requires f <= l <= i < |s| && !IsOperand(s[i]) && s[i] != "--"
    ensures GoalOf(optstring, s, f, l, i) == GoalMid(optstring, s, f, l, i, s[i][1..])
  {
    hide Scan, OptsOf;
    var (o, u) := OptsOf(optstring, s[i][1..], s[i + 1..]);
    var r := Scan(optstring, s[i + 1 + u..]);
    assert s[i..][0] == s[i] && s[i..][1..] == s[i + 1..] && s[i..][1 + u..] == s[i + 1 + u..];
    ScanHead(optstring, s[i..]);
    var element := s[i..][..1 + u];
    assert s[l..i] + element == s[l..i + 1 + u];
    Associates(s[..f], s[l..i], element);
    Associates(s[..f] + s[l..i], element, r.options);
  }

  /** Reading one character: the option returned, how many elements are finished, what is left of this one. */
  function ReadChar(optstring: string, chars: string, more: seq<string>): (r: (Opt, nat, string))
    requires chars != ""
    ensures r.1 <= 1 + |more| && (r.2 != "" <==> r.1 == 0)
  {
    var c, tail := chars[0], chars[1..];
    var step := if tail == "" then 1 else 0;
    match NeedOf(optstring, c)
    case Unknown => (Opt('?', None), step, tail)
    case Plain => (Opt(c, None), step, tail)
    case Optional => (Opt(c, if tail != "" then Some(tail) else None), 1, "")
    case Required =>
      if tail != "" then (Opt(c, Some(tail)), 1, "")
      else if more == [] then (Opt(MissingCode(optstring), None), 1, "")
      else (Opt(c, Some(more[0])), 2, "")
  }

  /** The character is no option, or its required argument is missing; optopt then tells which character it was. */
  predicate Faulty(optstring: string, chars: string, more: seq<string>)
    requires chars != ""
  {
    chars[0] == ':' || chars[0] !in optstring
    || (NeedOf(optstring, chars[0]).Required? && |chars| == 1 && more == [])
  }

  lemma {:induction false} IndexOfIff(s: string, c: char)
    ensures IndexOf(s, c) >= 0 <==> c in s
  {
    if s != "" {
      IndexOfIff(s[1..], c);
    }
  }

  lemma OptsOfNothing(optstring: string, more: seq<string>)
    ensures OptsOf(optstring, "", more) == ([], 0)
  {
  }

  lemma OptsRead(optstring: string, chars: string, more: seq<string>)
    requires chars != ""
    ensures var (o, n, tail) := ReadChar(optstring, chars, more);
            var r := OptsOf(optstring, tail, more);
            OptsOf(optstring, chars, more) == ([o] + r.0, if tail != "" then r.1 else n - 1)
  {
    var r := ReadChar(optstring, chars, more);
    assert OptsOf(optstring, "", more) == ([], 0);
    assert [r.0] + [] == [r.0];
  }

  /** Returning o is all that separates two goals. */
  predicate Emits(before: Parsed, o: Opt, after: Parsed) {
    before == Parsed([o] + after.opts, after.options, after.operands)
  }

  lemma GoalReads(optstring: string, s: seq<string>, f: nat, l: nat, i: nat, chars: string)
    requires f <= l <= i < |s| && chars != ""
    ensures var (o, n, tail) := ReadChar(optstring, chars, s[i + 1..]);
            Emits(GoalAt(optstring, s, f, l, i, chars), o, GoalAt(optstring, s, f, l, i + n, tail))
  {
    hide OptsOf, ReadChar, GoalOf;
    OptsRead(optstring, chars, s[i + 1..]);
    var (o, n, tail) := ReadChar(optstring, chars, s[i + 1..]);
    var r := OptsOf(optstring, tail, s[i + 1..]);
    OptsOfNothing(optstring, s[i + 1..]);
    if tail != "" {
      var g := GoalOf(optstring, s, f, l, i + 1 + r.1);
      assert ([o] + r.0) + g.opts == [o] + (r.0 + g.opts);
    } else {
      assert [o] + r.0 == [o];
    }
  }

  lemma TwoParts<T>(s: seq<T>, i: nat)
    requires i <= |s|
    ensures s == s[..i] + s[i..] && |s[..i]| == i
  {
  }

  class Getopt {
    const argv: array<string>
    const optstring: string
    var optind: nat
    var nextchar: string
    var optarg: Option<string>
    var optopt: char
    var first_nonopt: nat
    var last_nonopt: nat

    ghost predicate Bounds()
      reads this
    {
      1 <= first_nonopt <= last_nonopt <= optind <= argv.Length
    }

    ghost predicate Valid()
      reads this
    {
      && Permuting(optstring) && Bounds()
      && (nextchar != "" ==> optind < argv.Length)
    }

    /** Where the scan will end: options still to be returned, and the final arrangement of argv. */
    ghost function Goal(): Parsed
      reads this, argv
      requires Valid()
    {
      GoalAt(optstring, argv[..], first_nonopt, last_nonopt, optind, nextchar)
    }

    /** _getopt_initialize on the first call: scanning starts after the program name. */
    constructor (argv: array<string>, optstring: string)
      requires argv.Length >= 1 && Permuting(optstring)
      ensures Valid() && this.argv == argv && this.optstring == optstring
      ensures Goal() == var r := Scan(optstring, argv[1..]); r.(options := argv[..1] + r.options)
    {
      this.argv, this.optstring := argv, optstring;
      optind, nextchar, optarg, optopt := 1, "", None, '?';
      first_nonopt, last_nonopt := 1, 1;
      new;
      var r := Scan(optstring, argv[..][1..]);
      assert argv[..][1..] == argv[1..] && argv[..][..1] == argv[..1];
      assert argv[..1] + argv[..][1..1] + r.options == argv[..1] + r.options;
      assert argv[..][1..1] + r.operands == r.operands;
    }

    method Exchange()
      requires Bounds()
      modifies argv, this`first_nonopt, this`last_nonopt
      ensures Bounds()
      ensures argv[..] == Rotated(old(argv[..]), old(first_nonopt), old(last_nonopt), optind)
      ensures first_nonopt == old(first_nonopt) + (optind - old(last_nonopt)) && last_nonopt == optind
    {
      ExchangeBlocks(argv, first_nonopt, last_nonopt, optind);
      first_nonopt := first_nonopt + (optind - last_nonopt);
      last_nonopt := optind;
    }

    /** Options seen after skipped operands move in front of them. */
    method SettleOptions()
      requires Valid() && nextchar == ""
      modifies argv, this`first_nonopt, this`last_nonopt
      ensures Valid() && last_nonopt == optind
      ensures Goal() == old(Goal())
    {
      hide GoalOf, GoalMid, Permuting, Rotated;
      GoalAfterExchange(optstring, argv[..], first_nonopt, last_nonopt, optind);
      if first_nonopt != last_nonopt && last_nonopt != optind {
        Exchange();
      } else if last_nonopt != optind {
        GoalWithoutOperands(optstring, argv[..], first_nonopt, optind);
        first_nonopt := optind;
        last_nonopt := optind;
      }
    }

    method SkipOperands()
      requires Valid() && nextchar == "" && last_nonopt == optind
      modifies this`optind, this`last_nonopt
      ensures Valid() && last_nonopt == optind
      ensures Goal() == old(Goal())
      ensures optind < argv.Length ==> !IsOperand(argv[optind])
    {
      hide GoalOf, GoalMid, Permuting;
      while optind < argv.Length && IsOperand(argv[optind])
        invariant Bounds()
        invariant GoalOf(optstring, argv[..], first_nonopt, optind, optind) == old(Goal())
        decreases argv.Length - optind
      {
        GoalSkips(optstring, argv[..], first_nonopt, optind);
        optind := optind + 1;
      }
      last_nonopt := optind;
    }

    /** "--" moves behind the options like one of them, and ends the scan. */
    method AtDashes()
      requires Valid() && nextchar == "" && last_nonopt == optind
      requires optind < argv.Length && argv[optind] == "--"
      modifies argv, this`first_nonopt, this`last_nonopt, this`optind
      ensures Bounds() && optind == last_nonopt == argv.Length
      ensures old(Goal()) == Parsed([], argv[..][..first_nonopt], argv[..][first_nonopt..])
    {
      hide GoalOf, GoalMid, Permuting, Rotated;
      GoalAtDashes(optstring, argv[..], first_nonopt, optind);
      optind := optind + 1;
      if first_nonopt != last_nonopt && last_nonopt != optind {
        Exchange();
      } else if first_nonopt == last_nonopt {
        RotatedDone(argv[..], first_nonopt, last_nonopt, optind);
        first_nonopt := optind;
      }
      last_nonopt := argv.Length;
      optind := argv.Length;
    }

    method FindElement()
      requires Valid() && nextchar == ""
      modifies argv, this`first_nonopt, this`last_nonopt, this`optind
      ensures Bounds()
      ensures optind < argv.Length ==>
                Valid() && Goal() == old(Goal()) && !IsOperand(argv[optind]) && argv[optind] != "--"
      ensures optind == argv.Length ==> last_nonopt == optind
      ensures optind == argv.Length ==>
                old(Goal()) == Parsed([], argv[..][..first_nonopt], argv[..][first_nonopt..])
    {
      hide GoalOf, GoalMid, Permuting, IsOperand;
      SettleOptions();
      SkipOperands();
      if optind != argv.Length && argv[optind] == "--" {
        AtDashes();
      } else if optind == argv.Length {
        GoalAtEnd(optstring, argv[..], first_nonopt);
      }
    }

    /** The advance to the next element; true when the arguments are exhausted. */
    method Advance() returns (done: bool)
      requires Valid() && nextchar == ""
      modifies argv, this`first_nonopt, this`last_nonopt, this`optind, this`nextchar
      ensures !done ==> Valid() && nextchar != "" && Goal() == old(Goal())
      ensures done ==> old(Goal()).opts == [] && optind == |old(Goal()).options|
      ensures done ==> argv[..] == old(Goal()).options + old(Goal()).operands
    {
      hide GoalOf, GoalMid, Permuting;
      FindElement();
      if optind == argv.Length {
        if first_nonopt != last_nonopt {
          optind := first_nonopt;
        }
        TwoParts(argv[..], first_nonopt);
        return true;
      }
      GoalOpens(optstring, argv[..], first_nonopt, last_nonopt, optind);
      nextchar := argv[optind][1..];
      return false;
    }

    /** The next option character of the element being read. */
    method Decode(ghost more: seq<string>) returns (c: char)
      requires Valid() && nextchar != "" && optarg == None
      requires more == argv[optind + 1..]
      modifies this`optind, this`nextchar, this`optarg, this`optopt
      ensures var (o, n, tail) := ReadChar(optstring, old(nextchar), more);
              Opt(c, optarg) == o && optind == old(optind) + n && nextchar == tail
      ensures optopt == if Faulty(optstring, old(nextchar), more) then old(nextchar)[0] else old(optopt)
    {
      c := nextchar[0];
      nextchar := nextchar[1..];
      var temp := IndexOf(optstring, c);
      IndexOfIff(optstring, c);
      if nextchar == "" {
        optind := optind + 1;
      }
      if temp < 0 || c == ':' {
        optopt := c;
        return '?';
      }
      if temp + 1 < |optstring| && optstring[temp + 1] == ':' {
        if temp + 2 < |optstring| && optstring[temp + 2] == ':' {
          if nextchar != "" {
            optarg := Some(nextchar);
            optind := optind + 1;
          } else {
            optarg := None;
          }
          nextchar := "";
        } else {
          if nextchar != "" {
            optarg := Some(nextchar);
            optind := optind + 1;
          } else if optind == argv.Length {
            optopt := c;
            c := if optstring[0] == ':' then ':' else '?';
          } else {
            optarg := Some(argv[optind]);
            optind := optind + 1;
          }
          nextchar := "";
        }
      }
      return c;
    }

    method NextChar() returns (c: char)
      requires Valid() && nextchar != "" && optarg == None
      modifies this`optind, this`nextchar, this`optarg, this`optopt
      ensures Valid()
      ensures Emits(old(Goal()), Opt(c, optarg), Goal())
      ensures optopt == if Faulty(optstring, old(nextchar), old(argv[optind + 1..])) then old(nextchar)[0]
                        else old(optopt)
    {
      hide ReadChar, Permuting, GoalAt, Emits, Faulty;
      ghost var s, i := argv[..], optind;
      GoalReads(optstring, s, first_nonopt, last_nonopt, i, nextchar);
      c := Decode(s[i + 1..]);
      assert argv[..] == s;
    }

    /** _getopt_internal without long options: None stands for -1. */
    method Next() returns (c: Option<char>)
      requires Valid()
      modifies this, argv
      ensures c.Some? ==> Valid()
      ensures c.Some? ==> Emits(old(Goal()), Opt(c.value, optarg), Goal())
      ensures c.None? ==> old(Goal()).opts == [] && optind == |old(Goal()).options|
      ensures c.None? ==> argv[..] == old(Goal()).options + old(Goal()).operands
    {
      hide GoalAt, Emits, Permuting;
      optarg := None;
      if nextchar == "" {
        var done := Advance();
        if done { return None; }
      }
      var o := NextChar();
      return Some(o);
    }
  }

  predicate Emitted(before: Parsed, os: seq<Opt>, after: Parsed) {
    before == Parsed(os + after.opts, after.options, after.operands)
  }

  lemma EmitsStart(g: Parsed)
    ensures Emitted(g, [], g)
  {
    assert [] + g.opts == g.opts;
  }

  lemma EmitsEnd(goal: Parsed, os: seq<Opt>, last: Parsed)
    requires Emitted(goal, os, last) && last.opts == []
    ensures os == goal.opts && last.options == goal.options && last.operands == goal.operands
  {
    assert os + [] == os;
  }

  lemma EmitsMore(goal: Parsed, os: seq<Opt>, before: Parsed, o: Opt, after: Parsed)
    requires Emitted(goal, os, before) && Emits(before, o, after)
    ensures Emitted(goal, os + [o], after) && |after.opts| < |before.opts|
  {
    assert os + ([o] + after.opts) == (os + [o]) + after.opts;
  }

  /** Calling getopt until it returns -1 yields the options of the reference parse, in order, and leaves
      argv as program name, options and their arguments, then operands, with optind at the boundary. */
  method ParseAll(argv: array<string>, optstring: string) returns (opts: seq<Opt>, optind: nat)
    requires argv.Length >= 1 && Permuting(optstring)
    modifies argv
    ensures var r := Scan(optstring, old(argv[1..]));
            && opts == r.opts
            && argv[..] == old(argv[..1]) + r.options + r.operands
            && optind == 1 + |r.options|
  {
    hide Scan, Emits, Emitted, Permuting;
    var g := new Getopt(argv, optstring);
    ghost var goal := g.Goal();
    opts := [];
    EmitsStart(goal);
    while true
      invariant g.Valid() && g.argv == argv && fresh(g)
      invariant Emitted(goal, opts, g.Goal())
      decreases |g.Goal().opts|
    {
      ghost var before := g.Goal();
      var c := g.Next();
      if c.None? {
        EmitsEnd(goal, opts, before);
        break;
      }
      EmitsMore(goal, opts, before, Opt(c.value, g.optarg), g.Goal());
      opts := opts + [Opt(c.value, g.optarg)];
    }
    optind := g.optind;
  }
}
