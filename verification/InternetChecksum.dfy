/** in_cksum of checksum.c, the Internet checksum of RFC 1071, on a little-endian host with 64-bit long. */
module InternetChecksum {
  import opened Bits
  import opened Bytes

  function Word(lo: byte, hi: byte): (w: int)
    ensures 0 <= w <= 0xffff
  {
    lo + 256 * hi
  }

  /** The plain sum of the 16-bit words; an odd last octet counts as a word with a zero high half. */
  function WordSum(d: seq<byte>): (s: nat)
    ensures s <= 0xffff * ((|d| + 1) / 2)
  {
    if |d| == 0 then 0
    else if |d| == 1 then d[0]
    else Word(d[0], d[1]) + WordSum(d[2..])
  }

  /** The two folding steps, truncated to 16 bits. */
  function Fold(sum: nat): (f: nat)
    ensures f <= 0xffff
  {
    var s := sum / 0x1_0000 + sum % 0x1_0000;
    (s + s / 0x1_0000) % 0x1_0000
  }

  lemma SumOfShort(d: seq<byte>)
    ensures WordSum(d) == if |d| == 0 then 0 else if |d| == 1 then d[0] else Word(d[0], d[1]) + WordSum(d[2..])
  {
  }

  lemma FoldIs(sum: nat)
    ensures var s := sum / 0x1_0000 + sum % 0x1_0000;
            Fold(sum) == (s + s / 0x1_0000) % 0x1_0000
  {
  }

  method InCksum(d: seq<byte>) returns (answer: nat)
    requires |d| <= INT_MAX
    ensures answer == 0xffff - Fold(WordSum(d))
  {
    hide WordSum, Word, Fold;
    var sum, nbytes, ptr := 0, |d|, 0;
    assert d[0..] == d;
    while nbytes > 1
      invariant 0 <= ptr && ptr + nbytes == |d| && 0 <= nbytes && 0 <= sum
      invariant sum + WordSum(d[ptr..]) == WordSum(d)
    {
      assert d[ptr..][2..] == d[ptr + 2..];
      SumOfShort(d[ptr..]);
      sum := sum + Word(d[ptr], d[ptr + 1]);
      ptr := ptr + 2;
      nbytes := nbytes - 2;
    }
    SumOfShort(d[ptr..]);
    if nbytes == 1 {
      sum := sum + d[ptr];
    }
    FoldIs(sum);
    sum := sum / 0x1_0000 + sum % 0x1_0000;
    sum := sum + sum / 0x1_0000;
    answer := 0xffff - sum % 0x1_0000;
  }

  // ---- The fold ----

  /** The second fold itself carries out of 16 bits. */
  predicate CarriesAgain(sum: nat) {
    var s := sum / 0x1_0000 + sum % 0x1_0000;
    s / 0x1_0000 + s % 0x1_0000 > 0xffff
  }

  lemma FoldCases(sum: nat)
    requires sum < 0x8000_0000_0000
    ensures var s := sum / 0x1_0000 + sum % 0x1_0000;
            var t := s / 0x1_0000 + s % 0x1_0000;
            && Fold(sum) == (if CarriesAgain(sum) then t - 0x1_0000 else t)
            && t <= 0x17fff
            && sum % 0xffff == t % 0xffff
  {
    hide Fold;
    var s := sum / 0x1_0000 + sum % 0x1_0000;
    var h, l := s / 0x1_0000, s % 0x1_0000;
    var c := if CarriesAgain(sum) then 1 else 0;
    FoldIs(sum);
    DivModUnique(s + h, 0x1_0000, h + c, h + l - 0x1_0000 * c);
    SameRemainder(sum, h + l, 0xffff, sum / 0x1_0000 + h);
  }

  /** Two folds are exact modulo 65535 if and only if the second one does not carry again. */
  lemma FoldExactIff(sum: nat)
    requires sum < 0x8000_0000_0000
    ensures Fold(sum) % 0xffff == sum % 0xffff <==> !CarriesAgain(sum)
  {
    hide Fold, CarriesAgain, Carry;
    FoldLosesTheCarry(sum);
    RemainderMoves(sum - Carry(sum), Carry(sum), 0xffff);
  }

  /** A sum within 32 bits folds exactly, and to zero only if it is zero. */
  lemma FoldOf32Bits(sum: nat)
    requires sum < 0x1_0000_0000
    ensures Fold(sum) % 0xffff == sum % 0xffff
    ensures Fold(sum) == 0 <==> sum == 0
  {
    FoldExactIff(sum);
  }

  // ---- A block carrying its own checksum ----

  lemma {:induction false} SumWithField(d: seq<byte>, at: nat, lo: byte, hi: byte)
    requires at % 2 == 0 && at + 1 < |d| && d[at] == 0 && d[at + 1] == 0
    ensures WordSum(d[at := lo][at + 1 := hi]) == WordSum(d) + Word(lo, hi)
  {
    if at > 0 {
      SumWithField(d[2..], at - 2, lo, hi);
      assert d[at := lo][at + 1 := hi][2..] == d[2..][at - 2 := lo][at - 1 := hi];
    } else {
      assert d[at := lo][at + 1 := hi][2..] == d[2..];
    }
  }

  /** The block with the checksum stored in its zeroed field, low octet first. */
  function Sealed(d: seq<byte>, at: nat): (r: seq<byte>)
    requires at + 1 < |d|
    ensures |r| == |d|
  {
    var a := 0xffff - Fold(WordSum(d));
    d[at := a % 256][at + 1 := a / 256]
  }

  function Carry(sum: nat): (c: int)
    ensures c == 0 <==> !CarriesAgain(sum)
    ensures c == 0 || c == 1
  {
    if CarriesAgain(sum) then 1 else 0
  }

  /** What a fold that carries again loses: the carry, which is worth one. */
  lemma FoldLosesTheCarry(sum: nat)
    requires sum < 0x8000_0000_0000
    ensures Fold(sum) % 0xffff == (sum - Carry(sum)) % 0xffff
    ensures Carry(sum) == 0 ==> (Fold(sum) == 0 <==> sum == 0)
    ensures Carry(sum) == 1 ==> Fold(sum) <= 0x8000
  {
    hide Fold, CarriesAgain;
    FoldCases(sum);
    var s := sum / 0x1_0000 + sum % 0x1_0000;
    var t := s / 0x1_0000 + s % 0x1_0000;
    var k := Quotient(t, sum);
    SameRemainder(t - Carry(sum), sum - Carry(sum), 0xffff, -k);
    SameRemainder(t - Carry(sum), t - 0x1_0000 * Carry(sum), 0xffff, Carry(sum));
  }

  /** A sealed block checks to zero if and only if the fold of its word sum did not carry again. */
  lemma SealedChecksIff(d: seq<byte>, at: nat)
    requires |d| <= INT_MAX && at % 2 == 0 && at + 1 < |d| && d[at] == 0 && d[at + 1] == 0
    ensures Fold(WordSum(Sealed(d, at))) == 0xffff <==> !CarriesAgain(WordSum(d))
  {
    hide Fold, CarriesAgain, Carry, WordSum;
    var sum := WordSum(d);
    var a := 0xffff - Fold(sum);
    SumWithField(d, at, a % 256, a / 256);
    assert Word(a % 256, a / 256) == a;
    FoldLosesTheCarry(sum);
    FoldLosesTheCarry(sum + a);
    SealedResidue(sum, Fold(sum), Carry(sum), Fold(sum + a), Carry(sum + a));
  }

  lemma Quotient(x: int, y: int) returns (k: int)
    requires x % 0xffff == y % 0xffff
    ensures y == x + 0xffff * k
  {
    k := y / 0xffff - x / 0xffff;
  }

  lemma SealedResidue(sum: nat, f: nat, c: int, g: nat, c': int)
    requires f <= 0xffff && g <= 0xffff && 0 <= c <= 1 && 0 <= c' <= 1
    requires f % 0xffff == (sum - c) % 0xffff
    requires g % 0xffff == (sum + (0xffff - f) - c') % 0xffff
    requires c == 0 ==> (f == 0 <==> sum == 0)
    requires c' == 0 ==> (g == 0 <==> sum + (0xffff - f) == 0)
    requires c' == 1 ==> g <= 0x8000
    ensures g == 0xffff <==> c == 0
  {
    var k := Quotient(f, sum - c);
    var m := Quotient(g, sum + (0xffff - f) - c');
    SealedDiffer(sum, f, c, g, c', k, m);
  }

  lemma SealedDiffer(sum: nat, f: nat, c: int, g: nat, c': int, k: int, m: int)
    requires f <= 0xffff && g <= 0xffff && 0 <= c <= 1 && 0 <= c' <= 1
    requires sum - c == f + 0xffff * k && sum + (0xffff - f) - c' == g + 0xffff * m
    requires c == 0 ==> (f == 0 <==> sum == 0)
    requires c' == 0 ==> (g == 0 <==> sum + (0xffff - f) == 0)
    requires c' == 1 ==> g <= 0x8000
    ensures g == 0xffff <==> c == 0
  {
    var t := k + 1 - m;
    assert g == c - c' + 0xffff * t;
    assert 0 <= t <= 1;
  }

  /** A word sum below 2^32 + 65535 never carries again. */
  lemma ShortSumsDoNotCarry(sum: nat)
    requires sum < 0x1_0000_ffff
    ensures !CarriesAgain(sum)
  {
    var s := sum / 0x1_0000 + sum % 0x1_0000;
    assert s < 0x1_ffff;
  }

  /** The field counts among the words but adds nothing to the sum. */
  lemma SumWithoutField(d: seq<byte>, at: nat)
    requires at % 2 == 0 && at + 1 < |d| && d[at] == 0 && d[at + 1] == 0
    ensures WordSum(d) <= 0xffff * ((|d| + 1) / 2 - 1)
  {
    hide WordSum;
    SumWithField(d, at, 255, 255);
  }

  /** Compute, store, compute again: the result is 0 exactly under that condition, and so for every block of up
      to 131078 octets; ShortestFailure gives a block of 131079 octets for which it is not. */
  method SealAndCheck(d: seq<byte>, at: nat) returns (r: seq<byte>, again: nat)
    requires at % 2 == 0 && at + 1 < |d| <= INT_MAX && d[at] == 0 && d[at + 1] == 0
    ensures again == 0 <==> !CarriesAgain(WordSum(d))
    ensures |d| <= 131_078 ==> again == 0
    ensures |r| == |d| && forall i :: 0 <= i < |d| && i != at && i != at + 1 ==> r[i] == d[i]
  {
    hide Fold, WordSum, CarriesAgain;
    var a := InCksum(d);
    r := d[at := a % 256][at + 1 := a / 256];
    again := InCksum(r);
    SealedChecksIff(d, at);
    SumWithoutField(d, at);
    if |d| <= 131_078 {
      ShortSumsDoNotCarry(WordSum(d));
    }
  }

  /** n words of all ones. */
  function Ones(n: nat): (d: seq<byte>)
    ensures |d| == 2 * n
  {
    seq(2 * n, i => 255)
  }

  lemma {:induction false} SumAfterOnes(n: nat, rest: seq<byte>)
    ensures WordSum(Ones(n) + rest) == 0xffff * n + WordSum(rest)
  {
    if n == 0 {
      assert Ones(0) + rest == rest;
    } else {
      assert (Ones(n) + rest)[2..] == Ones(n - 1) + rest;
      SumAfterOnes(n - 1, rest);
    }
  }

  lemma LeastCarry()
    ensures CarriesAgain(0x1_0000_ffff)
  {
  }

  /** 65538 words of all ones, the field, and one octet more: the checksum stored in this block does not check. */
  lemma ShortestFailure()
    ensures var d := Ones(65_538) + [0, 0, 1];
            && |d| == 131_079 && CarriesAgain(WordSum(d))
            && Fold(WordSum(Sealed(d, 131_076))) != 0xffff
  {
    hide Fold, WordSum, CarriesAgain, Ones;
    var d := Ones(65_538) + [0, 0, 1];
    SumAfterOnes(65_538, [0, 0, 1]);
    SumOfShort([0, 0, 1]);
    assert [0, 0, 1][2..] == [1];
    SumOfShort([1]);
    LeastCarry();
    SealedChecksIff(d, 131_076);
  }

  // ---- Byte order independence ----

  function Swap16(w: nat): nat {
    w % 256 * 256 + w / 256
  }

  function SwapWords(d: seq<byte>): (r: seq<byte>)
    requires |d| % 2 == 0
    ensures |r| == |d|
  {
    if d == [] then [] else [d[1], d[0]] + SwapWords(d[2..])
  }

  lemma SwapUnfolds(d: seq<byte>)
    requires |d| % 2 == 0 && d != []
    ensures |SwapWords(d)| >= 2 && SwapWords(d)[0] == d[1] && SwapWords(d)[1] == d[0]
    ensures SwapWords(d)[2..] == SwapWords(d[2..])
  {
    hide WordSum;
  }

  lemma SwapHead(d: seq<byte>)
    requires |d| % 2 == 0 && d != []
    ensures WordSum(d) == Word(d[0], d[1]) + WordSum(d[2..])
    ensures WordSum(SwapWords(d)) == Word(d[1], d[0]) + WordSum(SwapWords(d[2..]))
  {
    hide WordSum, SwapWords;
    SumOfShort(d);
    SwapUnfolds(d);
    SumOfShort(SwapWords(d));
  }

  lemma SwapNothing()
    ensures BytesSwapped(WordSum([]), WordSum(SwapWords([])))
  {
  }

  /** The sums x and y of words and of the same words with their octets swapped. */
  predicate BytesSwapped(x: nat, y: nat) {
    y % 0xffff == (256 * x) % 0xffff && (y == 0 <==> x == 0)
  }

  lemma {:induction false} SwappedSum(d: seq<byte>)
    requires |d| % 2 == 0
    ensures BytesSwapped(WordSum(d), WordSum(SwapWords(d)))
  {
    hide WordSum, SwapWords, Word, BytesSwapped;
    if d == [] {
      SwapNothing();
    } else {
      SwapHead(d);
      SwappedSum(d[2..]);
      SwapStep(d[0], d[1], WordSum(d[2..]), WordSum(SwapWords(d[2..])));
    }
  }

  lemma SwapStep(lo: byte, hi: byte, x: nat, y: nat)
    requires BytesSwapped(x, y)
    ensures BytesSwapped(Word(lo, hi) + x, Word(hi, lo) + y)
  {
    var k := Quotient(y, 256 * x);
    SameRemainder(256 * (Word(lo, hi) + x), Word(hi, lo) + y, 0xffff, hi + k);
  }

  lemma Swap16Range(f: nat)
    requires f <= 0xffff
    ensures Swap16(f) <= 0xffff && (Swap16(f) == 0 <==> f == 0)
    ensures (256 * f) % 0xffff == Swap16(f) % 0xffff
    ensures 0xffff - Swap16(f) == Swap16(0xffff - f)
  {
    var hi, lo := f / 256, f % 256;
    assert f == 256 * hi + lo && hi <= 255;
    SameRemainder(256 * f, Swap16(f), 0xffff, hi);
    DivModUnique(0xffff - f, 256, 255 - hi, 255 - lo);
  }

  /** Swapping the octets of every word swaps the octets of the checksum, if and only if neither fold carries
      again. */
  lemma SwappingCommutesIff(d: seq<byte>)
    requires |d| % 2 == 0 && |d| <= INT_MAX
    ensures 0xffff - Fold(WordSum(SwapWords(d))) == Swap16(0xffff - Fold(WordSum(d)))
            <==> !CarriesAgain(WordSum(d)) && !CarriesAgain(WordSum(SwapWords(d)))
  {
    hide Fold, WordSum, SwapWords, Swap16, CarriesAgain, Carry;
    var x, y := WordSum(d), WordSum(SwapWords(d));
    SwappedSum(d);
    FoldLosesTheCarry(x);
    FoldLosesTheCarry(y);
    Swap16Range(Fold(x));
    SwappedResidue(x, Fold(x), Carry(x), y, Fold(y), Carry(y), Swap16(Fold(x)));
  }

  lemma SwappedResidue(x: nat, f: nat, c: int, y: nat, g: nat, c': int, sw: nat)
    requires f <= 0xffff && g <= 0xffff && sw <= 0xffff && 0 <= c <= 1 && 0 <= c' <= 1
    requires y % 0xffff == (256 * x) % 0xffff && (y == 0 <==> x == 0)
    requires f % 0xffff == (x - c) % 0xffff && g % 0xffff == (y - c') % 0xffff
    requires (c == 0 ==> (f == 0 <==> x == 0)) && (c' == 0 ==> (g == 0 <==> y == 0))
    requires (256 * f) % 0xffff == sw % 0xffff && (sw == 0 <==> f == 0)
    ensures g == sw <==> c == 0 && c' == 0
  {
    var k := Quotient(f, x - c);
    var j := Quotient(g, y - c');
    var i := Quotient(y, 256 * x);
    var h := Quotient(sw, 256 * f);
    SwappedDiffer(x, f, c, y, g, c', sw, k, j, i, h);
  }

  /** With the residues written out: two numbers of 16 bits, equal or 65535 apart but for what the carries add. */
  lemma SwappedDiffer(x: int, f: int, c: int, y: int, g: int, c': int, sw: int, k: int, j: int, i: int, h: int)
    requires 0 <= g <= 0xffff && 0 <= sw <= 0xffff && 0 <= c <= 1 && 0 <= c' <= 1
    requires x - c == f + 0xffff * k && y - c' == g + 0xffff * j
    requires 256 * x == y + 0xffff * i && 256 * f == sw + 0xffff * h
    requires c == 0 && c' == 0 ==> (sw == 0 <==> g == 0)
    ensures g == sw <==> c == 0 && c' == 0
  {
    var t := i + j - 256 * k - h;
    assert sw - g == c' - 256 * c + 0xffff * t;
    assert -1 <= t <= 1;
  }

  /** The block of ShortestFailure, filled up to whole words: swapping it does not swap its checksum. */
  lemma SwappingFails()
    ensures var d := Ones(65_538) + [0, 0, 1, 0];
            && |d| == 131_080 && CarriesAgain(WordSum(d))
            && 0xffff - Fold(WordSum(SwapWords(d))) != Swap16(0xffff - Fold(WordSum(d)))
  {
    hide Fold, WordSum, CarriesAgain, Ones, SwapWords, Swap16;
    var d := Ones(65_538) + [0, 0, 1, 0];
    SumAfterOnes(65_538, [0, 0, 1, 0]);
    SumOfShort([0, 0, 1, 0]);
    assert [0, 0, 1, 0][2..] == [1, 0];
    SumOfShort([1, 0]);
    assert [1, 0][2..] == [];
    SumOfShort([]);
    LeastCarry();
    SwappingCommutesIff(d);
  }
}
