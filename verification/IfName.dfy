/** if_cmp_func of if.c: interface names in the order of their letters and numbers. */
module IfName {
  import opened Bytes
  import opened Sequences

  const LONG_MAX: nat := 0x7fff_ffff_ffff_ffff

  predicate IsName(s: seq<byte>) {
    0 !in s
  }

  predicate IsDigit(c: byte) {
    48 <= c <= 57
  }

  function Sign(x: int): int {
    if x < 0 then -1 else if x > 0 then 1 else 0
  }

  // ---- the C library functions it calls; a string ends where the sequence ends

  /** strcspn of the ten digits */
  function Span(s: seq<byte>): (n: nat)
    ensures n <= |s|
    ensures forall i :: 0 <= i < n ==> !IsDigit(s[i])
    ensures n < |s| ==> IsDigit(s[n])
  {
    if s == [] || IsDigit(s[0]) then 0 else 1 + Span(s[1..])
  }

  function StrNCmp(a: seq<byte>, b: seq<byte>, n: nat): int
    requires n <= |a| && n <= |b|
  {
    if n == 0 then 0 else if a[0] != b[0] then a[0] - b[0] else StrNCmp(a[1..], b[1..], n - 1)
  }

  /** The digits at the front. */
  function Digits(s: seq<byte>): (n: nat)
    ensures n <= |s|
    ensures n < |s| ==> !IsDigit(s[n])
    ensures s != [] && IsDigit(s[0]) ==> n > 0
  {
    if s == [] || !IsDigit(s[0]) then 0 else 1 + Digits(s[1..])
  }

  function Decimal(s: seq<byte>): nat {
    if s == [] || !IsDigit(s[|s| - 1]) then 0 else 10 * Decimal(s[..|s| - 1]) + (s[|s| - 1] - 48)
  }

  /** strtol of a string that starts with a digit, in base 10 */
  function StrToL(s: seq<byte>): (long: nat)
    ensures long <= LONG_MAX
  {
    var v := Decimal(s[..Digits(s)]);
    if v > LONG_MAX then LONG_MAX else v
  }

  // ---- the order

  /** A name as characters and whole numbers. */
  datatype Symbol = Char(c: byte) | Num(v: nat)

  function Symbols(s: seq<byte>): seq<Symbol> {
    if s == [] then []
    else if IsDigit(s[0]) then [Num(StrToL(s))] + Symbols(s[Digits(s)..])
    else [Char(s[0])] + Symbols(s[1..])
  }

  /** Numbers by value, characters by code, and a number where its first digit would be. */
  predicate Below(x: Symbol, y: Symbol) {
    match (x, y)
    case (Num(v), Num(w)) => v < w
    case (Char(c), Char(d)) => c < d
    case (Num(_), Char(d)) => d > 57
    case (Char(c), Num(_)) => c < 48
  }

  /** Lexicographic comparison. Two names of the same symbols compare as -1 after a character and as 0 after a
      number or when both are empty. */
  function Order(s: seq<Symbol>, t: seq<Symbol>, afterChar: bool): int {
    if s == [] && t == [] then (if afterChar then -1 else 0)
    else if s == [] then -1
    else if t == [] then 1
    else if s[0] == t[0] then Order(s[1..], t[1..], s[0].Char?)
    else if Below(s[0], t[0]) then -1
    else 1
  }

  function NameOrder(a: seq<byte>, b: seq<byte>): int {
    Order(Symbols(a), Symbols(b), false)
  }

  /** if_cmp_func */
  method IfCmp(name1: seq<byte>, name2: seq<byte>) returns (r: int)
    requires IsName(name1) && IsName(name2)
    ensures Sign(r) == NameOrder(name1, name2)
  {
    var p1, p2 := name1, name2;
    while p1 != [] && p2 != []
      invariant IsName(p1) && IsName(p2)
      invariant Order(Symbols(p1), Symbols(p2), false) == NameOrder(name1, name2)
      decreases |p1|
    {
      var l1, l2 := Span(p1), Span(p2);
      if l1 != l2 {
        DifferentRuns(p1, p2, false);
        return StrCmp(p1, p2);
      }
      var res := StrNCmp(p1, p2, l1);
      SameRuns(p1, p2, false);
      if res != 0 {
        return res;
      }
      p1 := p1[l1..];
      p2 := p2[l1..];
      if p1 == [] {
        return -1;
      }
      if p2 == [] {
        return 1;
      }
      var x1, x2 := StrToL(p1), StrToL(p2);
      NumbersNext(p1, p2, l1 > 0);
      p1 := p1[Digits(p1)..];
      p2 := p2[Digits(p2)..];
      if x1 < x2 {
        return -1;
      }
      if x1 > x2 {
        return 1;
      }
    }
    if p1 != [] {
      return 1;
    }
    if p2 != [] {
      return -1;
    }
    return 0;
  }

  /** When one run of characters is longer, the byte comparison decides as the symbols do. */
  lemma {:induction false} DifferentRuns(p1: seq<byte>, p2: seq<byte>, after: bool)
    requires IsName(p1) && IsName(p2) && Span(p1) != Span(p2)
    ensures Sign(StrCmp(p1, p2)) == Order(Symbols(p1), Symbols(p2), after)
  {
    if p1 != [] && p2 != [] && p1[0] == p2[0] {
      DifferentRuns(p1[1..], p2[1..], true);
    } else {
      assert p1 != [] ==> p1[0] in p1;
      assert p2 != [] ==> p2[0] in p2;
    }
  }

  lemma {:induction false} SameRuns(p1: seq<byte>, p2: seq<byte>, after: bool)
    requires IsName(p1) && IsName(p2) && Span(p1) == Span(p2)
    ensures var l := Span(p1);
            var res := StrNCmp(p1, p2, l);
            && (res != 0 ==> Sign(res) == Order(Symbols(p1), Symbols(p2), after))
            && (res == 0 ==> Order(Symbols(p1), Symbols(p2), after)
                             == Order(Symbols(p1[l..]), Symbols(p2[l..]), if l > 0 then true else after))
    decreases |p1|
  {
    if Span(p1) > 0 && p1[0] == p2[0] {
      SameRuns(p1[1..], p2[1..], true);
      var l := Span(p1);
      assert p1[1..][l - 1..] == p1[l..] && p2[1..][l - 1..] == p2[l..];
    } else if Span(p1) == 0 {
      assert p1[0..] == p1 && p2[0..] == p2;
    }
  }

  lemma NumbersNext(p1: seq<byte>, p2: seq<byte>, after: bool)
    requires p1 != [] && p2 != [] && IsDigit(p1[0]) && IsDigit(p2[0])
    ensures var x1, x2 := StrToL(p1), StrToL(p2);
            Order(Symbols(p1), Symbols(p2), after)
            == if x1 < x2 then -1 else if x1 > x2 then 1
               else Order(Symbols(p1[Digits(p1)..]), Symbols(p2[Digits(p2)..]), false)
  {
  }

  // ---- what kind of order it is

  ghost predicate Wf(s: seq<Symbol>) {
    forall i :: 0 <= i < |s| ==> s[i].Char? ==> !IsDigit(s[i].c)
  }

  lemma {:induction false} SymbolsWf(s: seq<byte>)
    ensures Wf(Symbols(s))
    decreases |s|
  {
    if s != [] {
      SymbolsWf(if IsDigit(s[0]) then s[Digits(s)..] else s[1..]);
    }
  }

  /** Among different symbol sequences: the result is never 0, and swapping the arguments swaps the sign. */
  lemma {:induction false} OrderIsAntisymmetric(s: seq<Symbol>, t: seq<Symbol>, a: bool, b: bool)
    requires Wf(s) && Wf(t) && s != t
    ensures Order(s, t, a) == -Order(t, s, b) != 0
  {
    if s != [] && t != [] && s[0] == t[0] {
      assert s == [s[0]] + s[1..] && t == [t[0]] + t[1..];
      OrderIsAntisymmetric(s[1..], t[1..], s[0].Char?, s[0].Char?);
    }
  }

  lemma {:induction false} OrderIsTransitive(s: seq<Symbol>, t: seq<Symbol>, u: seq<Symbol>, a: bool)
    requires Wf(s) && Wf(t) && Wf(u) && s != t && t != u
    requires Order(s, t, a) < 0 && Order(t, u, a) < 0
    ensures s != u && Order(s, u, a) < 0
  {
    if s != [] {
      assert t != [] && u != [];
      assert s == [s[0]] + s[1..] && t == [t[0]] + t[1..] && u == [u[0]] + u[1..];
      if s[0] == t[0] == u[0] {
        OrderIsTransitive(s[1..], t[1..], u[1..], s[0].Char?);
      }
    }
  }

  /** The name behind its first symbol. */
  function Tail(s: seq<byte>): (t: seq<byte>)
    requires s != []
    ensures |t| < |s| && forall c :: c in t ==> c in s
    ensures Symbols(s) == [Symbols(s)[0]] + Symbols(t)
  {
    if IsDigit(s[0]) then s[Digits(s)..] else s[1..]
  }

  lemma FirstSymbol(s: seq<byte>)
    requires s != []
    ensures Symbols(s)[0].Char? <==> !IsDigit(s[0])
    ensures Symbols(s)[0].Char? ==> Symbols(s)[0].c == s[0]
  {
  }

  /** The last character of a name is that of its tail; a name of one symbol is one character or all digits. */
  lemma TailEnds(s: seq<byte>)
    requires s != []
    ensures Tail(s) == [] ==> (IsDigit(s[|s| - 1]) <==> IsDigit(s[0]))
    ensures Tail(s) != [] ==> Tail(s)[|Tail(s)| - 1] == s[|s| - 1]
  {
    hide Symbols, Digits, IsDigit;
    var n := if IsDigit(s[0]) then Digits(s) else 1;
    assert Tail(s) == s[n..];
    if IsDigit(s[0]) {
      AllDigits(s);
      assert IsDigit(s[n - 1]);
    }
  }

  lemma NoSymbols()
    ensures Symbols([]) == []
  {
  }

  lemma {:induction false} OrderWithItself(a: seq<byte>, after: bool)
    ensures Order(Symbols(a), Symbols(a), after)
            == if (if a == [] then after else !IsDigit(a[|a| - 1])) then -1 else 0
    decreases |a|
  {
    hide Symbols, Tail, IsDigit;
    if a == [] {
      NoSymbols();
    } else {
      FirstSymbol(a);
      TailEnds(a);
      OrderWithItself(Tail(a), !IsDigit(a[0]));
      assert Symbols(a)[1..] == Symbols(Tail(a));
    }
  }

  /** Equal symbols: the function answers "less" both ways round if the names end in a character. */
  lemma TieRule(a: seq<byte>, b: seq<byte>, after: bool)
    requires Symbols(a) == Symbols(b)
    ensures Order(Symbols(a), Symbols(b), after)
            == if (if a == [] then after else !IsDigit(a[|a| - 1])) then -1 else 0
  {
    OrderWithItself(a, after);
  }

  /** "eth1a" and "eth01a" are different names, and each is less than the other. */
  lemma EachIsLess()
    ensures var a, b := [101, 116, 104, 49, 97], [101, 116, 104, 48, 49, 97];
            a != b && Symbols(a) == Symbols(b) && NameOrder(a, b) == -1 == NameOrder(b, a)
  {
    var a: seq<byte>, b: seq<byte> := [101, 116, 104, 49, 97], [101, 116, 104, 48, 49, 97];
    assert a[1..][1..][1..] == [49, 97] && b[1..][1..][1..] == [48, 49, 97];
    OneThenLetter();
    assert Symbols(a) == [Char(101)] + ([Char(116)] + ([Char(104)] + Symbols([49, 97])));
    assert Symbols(b) == [Char(101)] + ([Char(116)] + ([Char(104)] + Symbols([48, 49, 97])));
    TieRule(a, b, false);
    TieRule(b, a, false);
  }

  lemma OneThenLetter()
    ensures Symbols([49, 97]) == Symbols([48, 49, 97])
  {
    var s: seq<byte>, t: seq<byte> := [49, 97], [48, 49, 97];
    assert t[1..] == s && s[1..] == [97];
    assert Digits(s) == 1 && Digits(t) == 2;
    assert s[..1] == [49] && t[..2] == [48, 49] && t[..2][..1] == [48];
    assert Decimal([49]) == 1 && Decimal([48]) == 0 && Decimal([48, 49]) == 1;
    assert s[1..] == t[2..];
  }

  lemma {:induction false} AllDigits(s: seq<byte>)
    ensures forall i :: 0 <= i < Digits(s) ==> IsDigit(s[i])
  {
    if s != [] && IsDigit(s[0]) {
      AllDigits(s[1..]);
    }
  }

  /** The order that sorted insertion can rely on: names with the same symbols count as alike. */
  predicate Le(a: seq<byte>, b: seq<byte>) {
    Symbols(a) == Symbols(b) || NameOrder(a, b) < 0
  }

  lemma LeIsTotalPreorder(a: seq<byte>, b: seq<byte>, c: seq<byte>)
    ensures Le(a, a)
    ensures NameOrder(a, b) < 0 ==> Le(a, b)
    ensures NameOrder(a, b) >= 0 ==> Le(b, a)
    ensures Le(a, b) && Le(b, c) ==> Le(a, c)
    ensures Le(a, b) && Le(b, a) ==> Symbols(a) == Symbols(b)
  {
    var s, t, u := Symbols(a), Symbols(b), Symbols(c);
    SymbolsWf(a);
    SymbolsWf(b);
    SymbolsWf(c);
    if s != t {
      OrderIsAntisymmetric(s, t, false, false);
    }
    if s != t && t != u && Order(s, t, false) < 0 && Order(t, u, false) < 0 {
      OrderIsTransitive(s, t, u, false);
    }
  }

  // ---- the order its comment describes

  /** Runs of characters compare as strings and no number comes before any number: so a run that ends, by a
      number or by the end of the name, comes before every longer one. */
  predicate DocBelow(x: Symbol, y: Symbol) {
    match (x, y)
    case (Num(v), Num(w)) => v < w
    case (Char(c), Char(d)) => c < d
    case (Num(_), Char(_)) => true
    case (Char(_), Num(_)) => false
  }

  predicate DocLess(s: seq<Symbol>, t: seq<Symbol>) {
    if s == [] then t != []
    else t != [] && if s[0] == t[0] then DocLess(s[1..], t[1..]) else DocBelow(s[0], t[0])
  }

  /** The names first differ where one has a number and the other a character coded below the digits. */
  predicate Clash(s: seq<Symbol>, t: seq<Symbol>) {
    s != [] && t != [] &&
    if s[0] == t[0] then Clash(s[1..], t[1..])
    else (s[0].Num? && t[0].Char? && t[0].c < 48) || (t[0].Num? && s[0].Char? && s[0].c < 48)
  }

  /** The function orders two names as documented exactly when they do not clash in that way. */
  lemma {:induction false} DocumentedIffNoClash(s: seq<Symbol>, t: seq<Symbol>, after: bool)
    requires Wf(s) && Wf(t) && s != t
    ensures (Order(s, t, after) < 0 <==> DocLess(s, t)) <==> !Clash(s, t)
  {
    if s != [] && t != [] && s[0] == t[0] {
      assert s == [s[0]] + s[1..] && t == [t[0]] + t[1..];
      DocumentedIffNoClash(s[1..], t[1..], s[0].Char?);
    }
  }

  lemma ClashBehind(s: seq<Symbol>, t: seq<Symbol>)
    requires s != [] && t != []
    requires s[0].Char? ==> s[0].c >= 48
    requires t[0].Char? ==> t[0].c >= 48
    ensures Clash(s, t) ==> Clash(s[1..], t[1..])
  {
  }

  lemma NoClashWithNothing(a: seq<byte>, b: seq<byte>)
    requires a == [] || b == []
    ensures !Clash(Symbols(a), Symbols(b))
  {
  }

  /** Names without characters below the digits never clash. */
  lemma {:induction false} PlainNamesNeverClash(a: seq<byte>, b: seq<byte>)
    requires (forall c :: c in a ==> c >= 48) && (forall c :: c in b ==> c >= 48)
    ensures !Clash(Symbols(a), Symbols(b))
    decreases |a|
  {
    hide Symbols, Clash;
    if a == [] || b == [] {
      NoClashWithNothing(a, b);
    } else {
      assert a[0] in a && b[0] in b;
      FirstSymbol(a);
      FirstSymbol(b);
      PlainNamesNeverClash(Tail(a), Tail(b));
      ClashBehind(Symbols(a), Symbols(b));
    }
  }

  /** "eth1" and "eth.1": the run "eth" ends sooner, yet the function puts "eth.1" first. */
  lemma DotBeforeDigit()
    ensures var a, b := [101, 116, 104, 49], [101, 116, 104, 46, 49];
            NameOrder(a, b) > 0 && DocLess(Symbols(a), Symbols(b))
  {
    var a: seq<byte>, b: seq<byte> := [101, 116, 104, 49], [101, 116, 104, 46, 49];
    assert a == [101] + ([116] + ([104] + [49])) && b == [101] + ([116] + ([104] + [46, 49]));
    var a1: seq<byte>, b1: seq<byte> := [49], [46, 49];
    SameLetter(104, a1, b1, true);
    SameLetter(116, [104] + a1, [104] + b1, true);
    SameLetter(101, [116] + ([104] + a1), [116] + ([104] + b1), false);
    assert Symbols(a1)[0].Num? && Symbols(b1)[0] == Char(46);
  }

  lemma SameLetter(c: byte, a: seq<byte>, b: seq<byte>, after: bool)
    requires !IsDigit(c)
    ensures Order(Symbols([c] + a), Symbols([c] + b), after) == Order(Symbols(a), Symbols(b), true)
    ensures DocLess(Symbols([c] + a), Symbols([c] + b)) == DocLess(Symbols(a), Symbols(b))
  {
    assert ([c] + a)[1..] == a && ([c] + b)[1..] == b;
    assert Symbols([c] + a)[1..] == Symbols(a) && Symbols([c] + b)[1..] == Symbols(b);
  }

  // ---- the numbers

  /** A number as it is usually written: digits, and no zero in front of another one. */
  predicate Numeral(s: seq<byte>) {
    s != [] && AllDigit(s) && (|s| > 1 ==> s[0] != 48)
  }

  predicate AllDigit(s: seq<byte>) {
    forall i :: 0 <= i < |s| ==> IsDigit(s[i])
  }

  /** The digits of LONG_MAX. */
  const LONG_DIGITS: seq<byte> := [57, 50, 50, 51, 51, 55, 50, 48, 51, 54, 56, 53, 52, 55, 55, 53, 56, 48, 55]

  /** Not greater than LONG_MAX, by the digits alone. */
  predicate FitsLong(s: seq<byte>) {
    |s| < |LONG_DIGITS| || (|s| == |LONG_DIGITS| && StrCmp(s, LONG_DIGITS) <= 0)
  }

  function Pow10(n: nat): nat {
    if n == 0 then 1 else 10 * Pow10(n - 1)
  }

  lemma {:induction false} Pow10Grows(m: nat, n: nat)
    requires m <= n
    ensures 1 <= Pow10(m) <= Pow10(n)
    decreases n
  {
    if m < n {
      Pow10Grows(m, n - 1);
    } else if m > 0 {
      Pow10Grows(m - 1, n - 1);
    }
  }

  lemma DecimalSnoc(s: seq<byte>)
    requires s != [] && AllDigit(s)
    ensures AllDigit(s[..|s| - 1])
    ensures Decimal(s) == 10 * Decimal(s[..|s| - 1]) + (s[|s| - 1] - 48) && 0 <= s[|s| - 1] - 48 <= 9
  {
  }

  /** A number of n digits, the first not zero, lies between 10^(n-1) and 10^n. */
  lemma {:induction false} DecimalBounds(s: seq<byte>)
    requires AllDigit(s)
    ensures Decimal(s) < Pow10(|s|)
    ensures s != [] && s[0] != 48 ==> Pow10(|s| - 1) <= Decimal(s)
  {
    if s != [] {
      hide Decimal;
      var init := s[..|s| - 1];
      DecimalSnoc(s);
      DecimalBounds(init);
      if init != [] {
        assert init[0] == s[0];
      } else {
        NoDigits();
      }
    } else {
      NoDigits();
    }
  }

  lemma NoDigits()
    ensures Decimal([]) == 0
  {
  }

  lemma {:induction false} StrCmpSnoc(a: seq<byte>, b: seq<byte>, x: byte, y: byte)
    requires |a| == |b|
    ensures StrCmp(a + [x], b + [y]) == if StrCmp(a, b) != 0 then StrCmp(a, b) else x - y
  {
    if a != [] {
      assert (a + [x])[1..] == a[1..] + [x] && (b + [y])[1..] == b[1..] + [y];
      if a[0] == b[0] {
        StrCmpSnoc(a[1..], b[1..], x, y);
      }
    }
  }

  /** Of two numbers with as many digits, the first difference decides. */
  lemma {:induction false} DecimalByDigits(a: seq<byte>, b: seq<byte>)
    requires AllDigit(a) && AllDigit(b) && |a| == |b|
    ensures Sign(Decimal(a) - Decimal(b)) == Sign(StrCmp(a, b))
  {
    if a != [] {
      hide Decimal, StrCmp;
      var a0, b0 := a[..|a| - 1], b[..|b| - 1];
      DecimalSnoc(a);
      DecimalSnoc(b);
      DecimalByDigits(a0, b0);
      assert a == a0 + [a[|a| - 1]] && b == b0 + [b[|b| - 1]];
      StrCmpSnoc(a0, b0, a[|a| - 1], b[|b| - 1]);
    }
  }

  lemma {:induction false} DigitsOfAll(s: seq<byte>)
    requires AllDigit(s)
    ensures Digits(s) == |s|
  {
    if s != [] {
      DigitsOfAll(s[1..]);
    }
  }

  lemma StrToLOfDigits(s: seq<byte>)
    requires AllDigit(s)
    ensures StrToL(s) == if Decimal(s) > LONG_MAX then LONG_MAX else Decimal(s)
  {
    DigitsOfAll(s);
    assert s[..|s|] == s;
  }

  lemma DecimalPush(s: seq<byte>, c: byte, v: nat)
    requires AllDigit(s) && IsDigit(c) && Decimal(s) == v
    ensures AllDigit(s + [c]) && Decimal(s + [c]) == 10 * v + (c - 48)
  {
    assert (s + [c])[..|s|] == s;
  }

  lemma LongDigits()
    ensures AllDigit(LONG_DIGITS) && Decimal(LONG_DIGITS) == LONG_MAX
  {
    hide Decimal;
    var d := LONG_DIGITS;
    NoDigits();
    var values := [0, 9, 92, 922, 9223, 92233, 922337, 9223372, 92233720, 922337203, 9223372036, 92233720368,
                   922337203685, 9223372036854, 92233720368547, 922337203685477, 9223372036854775,
                   92233720368547758, 922337203685477580, 9223372036854775807];
    for k := 0 to |d|
      invariant AllDigit(d[..k]) && Decimal(d[..k]) == values[k]
    {
      assert d[..k + 1] == d[..k] + [d[k]];
      DecimalPush(d[..k], d[k], values[k]);
    }
    assert d[..|d|] == d;
  }

  /** FitsLong says what it is named for. */
  lemma FitsLongIff(s: seq<byte>)
    requires Numeral(s)
    ensures FitsLong(s) <==> Decimal(s) <= LONG_MAX
  {
    hide Decimal, StrCmp;
    LongDigits();
    DecimalBounds(s);
    DecimalBounds(LONG_DIGITS);
    if |s| < |LONG_DIGITS| {
      Pow10Grows(|s|, |LONG_DIGITS| - 1);
    } else if |s| > |LONG_DIGITS| {
      Pow10Grows(|LONG_DIGITS|, |s| - 1);
    } else {
      DecimalByDigits(s, LONG_DIGITS);
    }
  }

  /** Numbers that fit compare by their lengths and then by their digits. */
  lemma NumeralOrder(a: seq<byte>, b: seq<byte>)
    requires Numeral(a) && Numeral(b) && FitsLong(a) && FitsLong(b)
    ensures Sign(StrToL(a) - StrToL(b)) == if |a| != |b| then Sign(|a| - |b|) else Sign(StrCmp(a, b))
  {
    hide Decimal, StrCmp, StrToL, FitsLong;
    StrToLOfDigits(a);
    StrToLOfDigits(b);
    FitsLongIff(a);
    FitsLongIff(b);
    if |a| < |b| {
      ShorterIsLess(a, b);
    } else if |b| < |a| {
      ShorterIsLess(b, a);
    } else {
      DecimalByDigits(a, b);
    }
  }

  lemma ShorterIsLess(a: seq<byte>, b: seq<byte>)
    requires Numeral(a) && Numeral(b) && |a| < |b|
    ensures Decimal(a) < Decimal(b)
  {
    hide Decimal;
    DecimalBounds(a);
    DecimalBounds(b);
    Pow10Grows(|a|, |b| - 1);
  }

  /** A number that does not fit reads as LONG_MAX. */
  lemma NumeralSaturates(s: seq<byte>)
    requires Numeral(s) && !FitsLong(s)
    ensures StrToL(s) == LONG_MAX
  {
    hide Decimal;
    StrToLOfDigits(s);
    FitsLongIff(s);
  }

  /** Zeros in front change nothing. */
  lemma LeadingZero(s: seq<byte>)
    requires s != [] && AllDigit(s)
    ensures StrToL([48] + s) == StrToL(s)
  {
    hide Decimal;
    ZeroInFront(s);
    StrToLOfDigits(s);
    StrToLOfDigits([48] + s);
  }

  lemma {:induction false} ZeroInFront(s: seq<byte>)
    requires AllDigit(s)
    ensures AllDigit([48] + s) && Decimal([48] + s) == Decimal(s)
  {
    hide Decimal;
    var t: seq<byte> := [48] + s;
    if s == [] {
      NoDigits();
      DecimalSnoc(t);
      assert t[..|t| - 1] == [];
    } else {
      DecimalSnoc(s);
      ZeroInFront(s[..|s| - 1]);
      assert t[..|t| - 1] == [48] + s[..|s| - 1];
      assert forall i :: 0 <= i < |t| ==> t[i] == if i == 0 then 48 else s[i - 1];
      DecimalSnoc(t);
    }
  }

  /** The digits of a number. */
  function Printed(v: nat): (s: seq<byte>)
    ensures Numeral(s) && (v > 0 ==> s[0] != 48)
  {
    if v < 10 then [48 + v] else Printed(v / 10) + [48 + v % 10]
  }

  /** Reading back a number as it is printed. */
  lemma PrintedReadsBack(v: nat)
    ensures StrToL(Printed(v)) == if v > LONG_MAX then LONG_MAX else v
  {
    hide Decimal, Printed;
    StrToLOfDigits(Printed(v));
    PrintedDecimal(v);
  }

  lemma {:induction false} PrintedDecimal(v: nat)
    ensures Decimal(Printed(v)) == v
  {
    hide Decimal;
    NoDigits();
    if v < 10 {
      DecimalPush([], 48 + v, 0);
      assert [] + [48 + v] == Printed(v);
    } else {
      PrintedDecimal(v / 10);
      DecimalPush(Printed(v / 10), 48 + v % 10, v / 10);
    }
  }

  // ---- numbers within names

  /** The digits before it end here. */
  predicate NoDigitFirst(s: seq<byte>) {
    s == [] || !IsDigit(s[0])
  }

  lemma {:induction false} DigitsStop(d: seq<byte>, rest: seq<byte>)
    requires AllDigit(d) && NoDigitFirst(rest)
    ensures Digits(d + rest) == |d|
  {
    if d == [] {
      assert d + rest == rest;
    } else {
      assert (d + rest)[1..] == d[1..] + rest;
      DigitsStop(d[1..], rest);
    }
  }

  lemma {:induction false} DigitsInside(p: seq<byte>, s: seq<byte>)
    requires p != [] && !IsDigit(p[|p| - 1])
    ensures Digits(p + s) == Digits(p) < |p|
  {
    if IsDigit(p[0]) {
      assert (p + s)[1..] == p[1..] + s;
      DigitsInside(p[1..], s);
    }
  }

  /** A name is read in parts when the first does not end in a digit. */
  lemma {:induction false} SymbolsSplit(p: seq<byte>, s: seq<byte>)
    requires p == [] || !IsDigit(p[|p| - 1])
    ensures Symbols(p + s) == Symbols(p) + Symbols(s)
    decreases |p|
  {
    hide Symbols, Digits, StrToL;
    if p == [] {
      assert p + s == s;
      NoSymbols();
    } else {
      var n := if IsDigit(p[0]) then Digits(p) else 1;
      DigitsInside(p, s);
      assert (p + s)[n..] == p[n..] + s && (p + s)[0] == p[0];
      SymbolsCons(p);
      SymbolsCons(p + s);
      SameNumber(p, p + s);
      SymbolsSplit(p[n..], s);
      Associates([FirstOf(p)], Symbols(p[n..]), Symbols(s));
    }
  }

  /** The first symbol of a name. */
  function FirstOf(s: seq<byte>): Symbol
    requires s != []
  {
    if IsDigit(s[0]) then Num(StrToL(s)) else Char(s[0])
  }

  lemma SymbolsCons(s: seq<byte>)
    requires s != []
    ensures var n := if IsDigit(s[0]) then Digits(s) else 1;
            Symbols(s) == [FirstOf(s)] + Symbols(s[n..])
  {
  }

  lemma SameNumber(p: seq<byte>, q: seq<byte>)
    requires Digits(p) == Digits(q) && p <= q
    ensures StrToL(p) == StrToL(q)
  {
    assert p[..Digits(p)] == q[..Digits(p)];
  }

  lemma NumberFirst(d: seq<byte>, rest: seq<byte>)
    requires d != [] && AllDigit(d) && NoDigitFirst(rest)
    ensures Symbols(d + rest) == [Num(StrToL(d))] + Symbols(rest)
  {
    hide Decimal;
    DigitsStop(d, rest);
    DigitsOfAll(d);
    assert (d + rest)[..|d|] == d[..|d|] && (d + rest)[|d|..] == rest;
  }

  lemma {:induction false} OrderBehind(p: seq<Symbol>, s: seq<Symbol>, t: seq<Symbol>, a: bool) returns (b: bool)
    ensures Order(p + s, p + t, a) == Order(s, t, b)
  {
    if p == [] {
      b := a;
      assert p + s == s && p + t == t;
    } else {
      b := OrderBehind(p[1..], s, t, p[0].Char?);
      assert (p + s)[1..] == p[1..] + s && (p + t)[1..] == p[1..] + t;
    }
  }

  /** Names that differ in a number after the same start: the lengths of the numbers and then their digits decide,
      whatever follows. */
  lemma NumbersDecide(prefix: seq<byte>, a: seq<byte>, u: seq<byte>, b: seq<byte>, v: seq<byte>)
    requires prefix == [] || !IsDigit(prefix[|prefix| - 1])
    requires Numeral(a) && Numeral(b) && FitsLong(a) && FitsLong(b) && a != b && NoDigitFirst(u) && NoDigitFirst(v)
    ensures NameOrder(prefix + (a + u), prefix + (b + v))
            == if |a| != |b| then Sign(|a| - |b|) else Sign(StrCmp(a, b))
  {
    hide Symbols, StrToL, StrCmp, FitsLong;
    SymbolsSplit(prefix, a + u);
    SymbolsSplit(prefix, b + v);
    NumberFirst(a, u);
    NumberFirst(b, v);
    NumeralOrder(a, b);
    StrCmpOfDifferent(a, b);
    var after := OrderBehind(Symbols(prefix), Symbols(a + u), Symbols(b + v), false);
  }

  lemma {:induction false} StrCmpOfDifferent(a: seq<byte>, b: seq<byte>)
    requires |a| == |b| ==> a != b
    ensures |a| == |b| ==> StrCmp(a, b) != 0
  {
    if |a| == |b| && a[0] == b[0] {
      assert a == [a[0]] + a[1..] && b == [b[0]] + b[1..];
      StrCmpOfDifferent(a[1..], b[1..]);
    }
  }

  /** "eth9" comes before "eth10". */
  lemma NineBeforeTen()
    ensures NameOrder([101, 116, 104, 57], [101, 116, 104, 49, 48]) == -1
  {
    hide Symbols, StrToL, StrCmp;
    var eth: seq<byte> := [101, 116, 104];
    var nine: seq<byte>, ten: seq<byte> := [57], [49, 48];
    assert eth + (nine + []) == [101, 116, 104, 57] && eth + (ten + []) == [101, 116, 104, 49, 48];
    NumbersDecide(eth, nine, [], ten, []);
  }
}
