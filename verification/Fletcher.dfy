/** The Fletcher checksum of checksum.c: block-wise reduced sums in signed 32-bit integers, and the two
    check octets of ISO 8473 Annex C. */
module Fletcher {
  import opened Bits
  import opened Bytes

  const MODX: nat := 4102
  const VALIDATE: nat := 0xffff

  /** The unreduced sums: of the octets, and of all prefix sums. */
  function Sum0(s: seq<byte>): (n: nat) {
    if s == [] then 0 else Sum0(s[..|s| - 1]) + s[|s| - 1]
  }

  function Sum1(s: seq<byte>): nat {
    if s == [] then 0 else Sum1(s[..|s| - 1]) + Sum0(s)
  }

  function Triangle(n: nat): nat {
    if n == 0 then 0 else Triangle(n - 1) + n
  }

  lemma {:induction false} TriangleFormula(n: nat)
    ensures 2 * Triangle(n) == n * (n + 1)
  {
    if n > 0 { TriangleFormula(n - 1); }
  }

  /** The largest c1 reachable from a reduced state by n octets. */
  function Peak(n: nat): nat {
    254 + 254 * n + 255 * Triangle(n)
  }

  lemma {:induction false} PeakMonotone(m: nat, n: nat)
    requires m <= n
    ensures Peak(m) <= Peak(n)
    decreases n
  {
    if m < n {
      PeakMonotone(m, n - 1);
    }
  }

  // ---- How long a block may be ----

  /** c1 after one block read from the reduced state (r0, r1), without reduction on the way. */
  function BlockC1(r0: nat, r1: nat, block: seq<byte>): nat {
    r1 + |block| * r0 + Sum1(block)
  }

  lemma {:induction false} SumBounds(block: seq<byte>)
    ensures Sum0(block) <= 255 * |block|
    ensures Sum1(block) <= 255 * Triangle(|block|)
  {
    if block != [] {
      SumBounds(block[..|block| - 1]);
    }
  }

  function Full(n: nat): (s: seq<byte>)
    ensures |s| == n
  {
    seq(n, i => 255)
  }

  lemma {:induction false} FullSums(n: nat)
    ensures Sum0(Full(n)) == 255 * n
    ensures Sum1(Full(n)) == 255 * Triangle(n)
  {
    if n > 0 {
      assert Full(n)[..n - 1] == Full(n - 1);
      FullSums(n - 1);
    }
  }

  /** No block of n octets, from any reduced state, takes c1 past the limit. */
  ghost predicate BlockFits(n: nat, limit: int) {
    forall r0: nat, r1: nat, block: seq<byte> :: r0 < 255 && r1 < 255 && |block| == n ==>
           BlockC1(r0, r1, block) <= limit
  }

  lemma MulMonotone(n: nat, a: nat, b: nat)
    requires a <= b
    ensures n * a <= n * b
  {
  }

  lemma FitsIffPeak(n: nat, limit: int)
    ensures BlockFits(n, limit) <==> Peak(n) <= limit
  {
    hide Sum0, Sum1, Triangle, Full;
    FullSums(n);
    assert BlockC1(254, 254, Full(n)) == Peak(n);
    forall r0: nat, r1: nat, block: seq<byte> | r0 < 255 && r1 < 255 && |block| == n
      ensures BlockC1(r0, r1, block) <= Peak(n)
    {
      SumBounds(block);
      MulMonotone(n, r0, 254);
    }
  }

  /** 4102 is the longest safe block for signed sums; the 5802 of the source comment needs unsigned ones. */
  lemma LongestBlocks(n: nat)
    ensures BlockFits(n, INT_MAX) <==> n <= MODX
    ensures BlockFits(n, 0xffff_ffff) <==> n <= 5802
  {
    hide BlockFits, Triangle;
    FitsIffPeak(n, INT_MAX);
    FitsIffPeak(n, 0xffff_ffff);
    TriangleFormula(MODX);
    TriangleFormula(MODX + 1);
    TriangleFormula(5802);
    TriangleFormula(5803);
    if n <= MODX { PeakMonotone(n, MODX); } else { PeakMonotone(MODX + 1, n); }
    if n <= 5802 { PeakMonotone(n, 5802); } else { PeakMonotone(5803, n); }
  }

  /** The state (254, 254) that makes 4103 too long does occur: after 4102 zeros and one 254. */
  lemma WorstStateOccurs()
    ensures var s := seq(4102, i => 0 as byte) + [254 as byte]; Sum0(s) % 255 == 254 && Sum1(s) % 255 == 254
  {
    ZeroSums(4102);
    var s := seq(4102, i => 0 as byte) + [254 as byte];
    assert s[..4102] == seq(4102, i => 0 as byte);
  }

  lemma {:induction false} ZeroSums(n: nat)
    ensures Sum0(seq(n, i => 0 as byte)) == 0 && Sum1(seq(n, i => 0 as byte)) == 0
  {
    if n > 0 {
      assert seq(n, i => 0 as byte)[..n - 1] == seq(n - 1, i => 0 as byte);
      ZeroSums(n - 1);
    }
  }

  // ---- The loop ----

  lemma SumsSnoc(s: seq<byte>, p: nat)
    requires p < |s|
    ensures Sum0(s[..p + 1]) == Sum0(s[..p]) + s[p]
    ensures Sum1(s[..p + 1]) == Sum1(s[..p]) + Sum0(s[..p + 1])
  {
    assert s[..p + 1][..p] == s[..p];
  }

  lemma PeakStep(n: nat)
    ensures Peak(n + 1) == Peak(n) + 254 + 255 * (n + 1)
  {
  }

  lemma PeakFits()
    ensures Peak(MODX) <= INT_MAX
  {
    TriangleFormula(MODX);
  }

  lemma AddMod(a: int, b: int, x: int, y: int)
    requires a % 255 == b % 255 && x % 255 == y % 255
    ensures (a + x) % 255 == (b + y) % 255
  {
  }

  /** One block, unreduced: int32 arithmetic does not overflow. */
  method AddBlock(buffer: array<byte>, p: nat, partial_len: nat, r0: int32, r1: int32) returns (c0: int32, c1: int32)
    requires p + partial_len <= buffer.Length && partial_len <= MODX
    requires 0 <= r0 < 255 && 0 <= r1 < 255
    requires r0 as int == Sum0(buffer[..p]) % 255 && r1 as int == Sum1(buffer[..p]) % 255
    ensures c0 >= 0 && c1 >= 0
    ensures c0 as int % 255 == Sum0(buffer[..p + partial_len]) % 255
    ensures c1 as int % 255 == Sum1(buffer[..p + partial_len]) % 255
  {
    hide Sum0, Sum1, Triangle;
    c0, c1 := r0, r1;
    TriangleFormula(0);
    for i := 0 to partial_len
      invariant 0 <= c0 as int <= 254 + 255 * i
      invariant 0 <= c1 as int <= Peak(i)
      invariant c0 as int % 255 == Sum0(buffer[..p + i]) % 255
      invariant c1 as int % 255 == Sum1(buffer[..p + i]) % 255
    {
      PeakStep(i);
      PeakMonotone(i + 1, MODX);
      PeakFits();
      assert buffer[..p + i + 1] == buffer[..][..p + i + 1] && buffer[..p + i] == buffer[..][..p + i];
      SumsSnoc(buffer[..], p + i);
      AddMod(c0 as int, Sum0(buffer[..p + i]), buffer[p + i], buffer[p + i]);
      c0 := c0 + buffer[p + i] as int32;
      AddMod(c1 as int, Sum1(buffer[..p + i]), c0 as int, Sum0(buffer[..p + i + 1]));
      c1 := c1 + c0;
    }
  }

  method Sums(buffer: array<byte>) returns (c0: int32, c1: int32)
    ensures 0 <= c0 < 255 && 0 <= c1 < 255
    ensures c0 as int == Sum0(buffer[..]) % 255 && c1 as int == Sum1(buffer[..]) % 255
  {
    c0, c1 := 0, 0;
    var left: nat := buffer.Length;
    while left != 0
      invariant left <= buffer.Length
      invariant 0 <= c0 < 255 && 0 <= c1 < 255
      invariant c0 as int == Sum0(buffer[..buffer.Length - left]) % 255
      invariant c1 as int == Sum1(buffer[..buffer.Length - left]) % 255
    {
      var partial_len := if left < MODX then left else MODX;
      c0, c1 := AddBlock(buffer, buffer.Length - left, partial_len, c0, c1);
      c0, c1 := c0 % 255, c1 % 255;
      left := left - partial_len;
    }
    assert buffer[..buffer.Length] == buffer[..];
  }

  // ---- The check octets ----

  /** Conversion of a wrapped unsigned result to a 32-bit int. */
  function ToInt32(v: int): (w: int)
    ensures -0x8000_0000 <= w < 0x8000_0000
  {
    (v + 0x8000_0000) % 0x1_0000_0000 - 0x8000_0000
  }

  /** How many times 2^32 the conversion drops. */
  function Dropped(v: int): int {
    (v + 0x8000_0000) / 0x1_0000_0000
  }

  /** C's remainder takes the sign of the dividend. */
  function CRem(a: int, m: int): (r: int)
    requires m > 0
    ensures a >= 0 ==> 0 <= r < m
    ensures a < 0 ==> -m < r <= 0
  {
    if a >= 0 then a % m else -((-a) % m)
  }

  /** The quantity the first check octet solves for: (len - offset - 1) * c0 - c1, before conversion. */
  function Target(s: seq<byte>, offset: nat): int
    requires offset + 1 < |s|
  {
    Solve(|s| - offset - 1, Sum0(s) % 255, Sum1(s) % 255)
  }

  function Solve(tail: int, c0: int, c1: int): int {
    tail * c0 - c1
  }

  function X(v: int): (x: int)
    ensures 1 <= x <= 255
  {
    var r := CRem(ToInt32(v), 255);
    if r <= 0 then r + 255 else r
  }

  function Y(c0: int, x: int): (y: int)
    requires 0 <= c0 < 255 && 1 <= x <= 255
    ensures 1 <= y <= 255
  {
    var y := 510 - c0 - x;
    if y > 255 then y - 255 else y
  }

  function Zeroed(s: seq<byte>, offset: nat): (r: seq<byte>)
    requires offset + 1 < |s|
    ensures |r| == |s|
  {
    s[offset := 0][offset + 1 := 0]
  }

  /** The buffer with its two check octets filled in. */
  function Generated(s: seq<byte>, offset: nat): (r: seq<byte>)
    requires offset + 1 < |s|
    ensures |r| == |s|
    ensures 1 <= r[offset] <= 255 && 1 <= r[offset + 1] <= 255
    ensures forall i :: 0 <= i < |s| && i != offset && i != offset + 1 ==> r[i] == s[i]
  {
    var z := Zeroed(s, offset);
    var x := X(Target(z, offset));
    z[offset := x][offset + 1 := Y(Sum0(z) % 255, x)]
  }

  /** What validation returns: 0 exactly when both sums are 0 modulo 255. */
  function Verdict(s: seq<byte>): nat {
    (Sum1(s) % 255) * 256 + Sum0(s) % 255
  }

  // ---- Changing one octet ----

  lemma SumsLast(s: seq<byte>, n: nat)
    requires n + 1 == |s|
    ensures Sum0(s) == Sum0(s[..n]) + s[n]
    ensures Sum1(s) == Sum1(s[..n]) + Sum0(s)
  {
  }

  lemma OneMoreTime(n: int, x: int)
    ensures n * x + x == (n + 1) * x
  {
  }

  lemma {:induction false} SumsAfterUpdate(s: seq<byte>, i: nat, x: byte)
    requires i < |s|
    ensures Sum0(s[i := x]) == Sum0(s) + x - s[i]
    ensures Sum1(s[i := x]) == Sum1(s) + (|s| - i) * (x - s[i])
  {
    hide Sum0, Sum1;
    var n := |s| - 1;
    SumsLast(s, n);
    SumsLast(s[i := x], n);
    if i == n {
      assert s[i := x][..n] == s[..n];
    } else {
      assert s[i := x][..n] == s[..n][i := x];
      SumsAfterUpdate(s[..n], i, x);
      OneMoreTime(n - i, x - s[i]);
    }
  }

  /** The sums of the generated buffer in terms of those of the zeroed one. */
  lemma GeneratedSums(s: seq<byte>, offset: nat)
    requires offset + 1 < |s|
    ensures var z := Zeroed(s, offset);
            var g := Generated(s, offset);
            var L := |s| - offset - 1;
            && Sum0(g) == Sum0(z) + g[offset] + g[offset + 1]
            && Sum1(g) == Sum1(z) + (L + 1) * g[offset] + L * g[offset + 1]
  {
    hide Sum0, Sum1, X, Y, Target;
    var z := Zeroed(s, offset);
    var g := Generated(s, offset);
    var z1 := z[offset := g[offset]];
    SumsAfterUpdate(z, offset, g[offset]);
    SumsAfterUpdate(z1, offset + 1, g[offset + 1]);
    assert g == z1[offset + 1 := g[offset + 1]];
  }

  lemma ToInt32Mod(v: int)
    ensures ToInt32(v) + 0x1_0000_0000 * Dropped(v) == v
  {
  }

  lemma XIsRemainder(v: int)
    ensures (X(v) - ToInt32(v)) % 255 == 0
  {
    hide ToInt32;
    var w := ToInt32(v);
    if w >= 0 {
      DivModUnique(X(v) - w, 255, (if X(v) == w % 255 then 0 else 1) - w / 255, 0);
    } else {
      DivModUnique(X(v) - w, 255, 1 + (-w) / 255, 0);
    }
  }

  lemma XMod(v: int)
    ensures (X(v) + Dropped(v) - v) % 255 == 0
  {
    hide X, ToInt32, Dropped;
    XIsRemainder(v);
    ToInt32Mod(v);
    var q := (X(v) - ToInt32(v)) / 255;
    DivModUnique(X(v) + Dropped(v) - v, 255, q - 0x101_0101 * Dropped(v), 0);
  }

  /** The congruence behind the two octets: the second sum of the generated buffer is minus the number of
      dropped multiples of 2^32. */
  lemma SecondSum(L: nat, a0: nat, a1: nat, x: int, y: int, k: int)
    requires 1 <= x <= 255 && y == Y(a0 % 255, x)
    requires (x + k - (L * (a0 % 255) - a1 % 255)) % 255 == 0
    ensures (a0 + x + y) % 255 == 0
    ensures (a1 + (L + 1) * x + L * y + k) % 255 == 0
  {
    var c0, c1 := a0 % 255, a1 % 255;
    var t := (x + y + c0) / 255;
    var u := (x + k - (L * c0 - c1)) / 255;
    assert x + y + c0 == 255 * t;
    Scaled(L, x, y, c0, t);
    DivModUnique(a0 + x + y, 255, a0 / 255 + t, 0);
    assert (L + 1) * x == L * x + x;
    DivModUnique(a1 + (L + 1) * x + L * y + k, 255, a1 / 255 + u + L * t, 0);
  }

  lemma Scaled(L: int, x: int, y: int, z: int, t: int)
    requires x + y + z == 255 * t
    ensures L * x + L * y + L * z == 255 * (L * t)
  {
    assert L * (x + y + z) == L * (255 * t);
  }

  /** Generating and then validating gives 0 if and only if the conversion of the target to int drops a
      multiple of 255 times 2^32; in particular whenever it drops nothing. */
  lemma ValidatesIff(s: seq<byte>, offset: nat)
    requires offset + 1 < |s|
    ensures Verdict(Generated(s, offset)) == 0 <==> Dropped(Target(Zeroed(s, offset), offset)) % 255 == 0
  {
    hide Sum0, Sum1, X, Y, ToInt32, Dropped;
    var z := Zeroed(s, offset);
    var g := Generated(s, offset);
    var L := |s| - offset - 1;
    var v := Target(z, offset);
    GeneratedSums(s, offset);
    XMod(v);
    SecondSum(L, Sum0(z), Sum1(z), g[offset], g[offset + 1], Dropped(v));
    VerdictZero(Sum0(g), Sum1(g), Dropped(v));
  }

  lemma VerdictZero(a: int, b: int, k: int)
    requires a % 255 == 0 && (b + k) % 255 == 0
    ensures b % 255 * 256 + a % 255 == 0 <==> k % 255 == 0
  {
  }

  /** Every buffer whose tail after the check octets is short enough validates. */
  lemma ShortTailsValidate(s: seq<byte>, offset: nat)
    requires offset + 1 < |s| && (|s| - offset - 1) * 254 <= INT_MAX
    ensures Verdict(Generated(s, offset)) == 0
  {
    hide Sum0, Sum1, Verdict, Generated, Zeroed;
    var z := Zeroed(s, offset);
    ShortProduct(|s| - offset - 1, Sum0(z) % 255);
    ValidatesIff(s, offset);
  }

  lemma ShortProduct(L: nat, c: nat)
    requires L * 254 <= INT_MAX && c <= 254
    ensures 0 <= L * c <= INT_MAX
  {
    assert L * (254 - c) >= 0;
    assert L * c == L * 254 - L * (254 - c);
  }

  /** Past that bound it can fail: one octet 254 followed by zeros, with a long enough tail. */
  lemma LongTailFails()
    ensures var s := seq(8_454_700, i => 0 as byte)[0 := 254]; Verdict(Generated(s, 1)) != 0
  {
    hide Sum0, Sum1, Verdict, Generated;
    var n := 8_454_700;
    var z := seq(n, i => 0 as byte);
    var s := z[0 := 254];
    ZeroSums(n);
    SumsAfterUpdate(z, 0, 254);
    assert Zeroed(s, 1) == s;
    ValidatesIff(s, 1);
  }

  /** Validation is 0 exactly when both sums are divisible by 255. */
  lemma VerdictIff(s: seq<byte>)
    ensures Verdict(s) == 0 <==> Sum0(s) % 255 == 0 && Sum1(s) % 255 == 0
    ensures Verdict(s) / 256 == Sum1(s) % 255 && Verdict(s) % 256 == Sum0(s) % 255
  {
    hide Sum0, Sum1;
    DivModUnique(Verdict(s), 256, Sum1(s) % 255, Sum0(s) % 255);
  }

  /** A buffer that validates does so no longer when one octet changes, but for 0 and 255 in place of each other. */
  lemma OneErrorIsSeen(s: seq<byte>, i: nat, x: byte)
    requires i < |s| && Verdict(s) == 0 && x != s[i]
    ensures Verdict(s[i := x]) == 0 ==> (x == 0 && s[i] == 255) || (x == 255 && s[i] == 0)
  {
    hide Sum0, Sum1, Verdict;
    VerdictIff(s);
    VerdictIff(s[i := x]);
    SumsAfterUpdate(s, i, x);
    if x > s[i] && x - s[i] < 255 {
      RemainderMoves(Sum0(s), x - s[i], 255);
    } else if x < s[i] && s[i] - x < 255 {
      RemainderMoves(Sum0(s[i := x]), s[i] - x, 255);
    }
  }

  /** Two octets that differ and change places are seen, unless they are 255 apart or so many places. */
  lemma SwapIsSeen(s: seq<byte>, i: nat, j: nat)
    requires i < j < |s| && Verdict(s) == 0
    ensures var t := s[i := s[j]][j := s[i]];
            Verdict(t) == 0 <==> ((j - i) * (s[i] as int - s[j] as int)) % 255 == 0
  {
    hide Sum0, Sum1, Verdict;
    var u := s[i := s[j]];
    var t := u[j := s[i]];
    var d: int := s[j] as int - s[i] as int;
    VerdictIff(s);
    VerdictIff(t);
    SumsAfterUpdate(s, i, s[j]);
    SumsAfterUpdate(u, j, s[i]);
    SwapDifference(|s|, i, j, d);
    assert Sum0(t) == Sum0(s) && Sum1(t) == Sum1(s) + (j - i) * d;
    Opposite(j - i, s[i] as int - s[j] as int);
    MultipleOf255(Sum1(s), (j - i) * d);
  }

  lemma SwapDifference(n: int, i: int, j: int, d: int)
    ensures (n - i) * d + (n - j) * -d == (j - i) * d
  {
  }

  lemma Opposite(n: int, d: int)
    ensures n * -d == -(n * d)
    ensures (n * d) % 255 == 0 <==> (n * -d) % 255 == 0
  {
    var p := n * d;
    assert n * -d == -p;
    if p % 255 == 0 {
      DivModUnique(-p, 255, -(p / 255), 0);
    }
    if (-p) % 255 == 0 {
      DivModUnique(p, 255, -((-p) / 255), 0);
    }
  }

  lemma MultipleOf255(a: int, p: int)
    requires a % 255 == 0
    ensures (a + p) % 255 == 0 <==> p % 255 == 0
  {
    SameRemainder(a + p, p, 255, a / 255);
  }

  // ---- fletcher_checksum ----

  /** With offset 0xffff the buffer is only read; otherwise the check octets are written. */
  method Checksum(buffer: array<byte>, offset: nat) returns (checksum: nat)
    requires offset <= VALIDATE && buffer.Length < 0x1_0000_0000_0000_0000
    requires offset != VALIDATE ==> offset + 1 < buffer.Length
    modifies buffer
    ensures offset == VALIDATE ==> buffer[..] == old(buffer[..]) && checksum == Verdict(buffer[..])
    ensures offset != VALIDATE ==> buffer[..] == Generated(old(buffer[..]), offset)
    ensures offset != VALIDATE ==> checksum % 256 == buffer[offset] && checksum / 256 == buffer[offset + 1]
  {
    hide Sum0, Sum1, Solve, ToInt32;
    if offset != VALIDATE {
      buffer[offset], buffer[offset + 1] := 0, 0;
    }
    ghost var z := buffer[..];
    var c0, c1 := Sums(buffer);
    // size_t arithmetic modulo 2^64, converted to int
    var v := Solve(buffer.Length - offset - 1, c0 as int, c1 as int) % 0x1_0000_0000_0000_0000;
    var x := CRem(ToInt32(v), 255);
    if x <= 0 { x := x + 255; }
    var y := 510 - c0 as int - x;
    if y > 255 { y := y - 255; }
    if offset == VALIDATE {
      checksum := c1 as int * 256 + c0 as int;
    } else {
      assert z == Zeroed(old(buffer[..]), offset);
      WideConversion(Solve(buffer.Length - offset - 1, c0 as int, c1 as int));
      buffer[offset] := x;
      buffer[offset + 1] := y;
      // htons on a little-endian host
      checksum := y * 256 + x;
    }
  }

  lemma WideConversion(v: int)
    ensures ToInt32(v % 0x1_0000_0000_0000_0000) == ToInt32(v)
  {
    var q, r := v / 0x1_0000_0000_0000_0000, v % 0x1_0000_0000_0000_0000;
    var w := r + 0x8000_0000;
    DivModUnique(v + 0x8000_0000, 0x1_0000_0000, 0x1_0000_0000 * q + w / 0x1_0000_0000, w % 0x1_0000_0000);
  }

  /** Generate, then validate the same buffer. */
  method GenerateThenValidate(buffer: array<byte>, offset: nat) returns (verdict: nat)
    requires offset < VALIDATE && offset + 1 < buffer.Length < 0x1_0000_0000_0000_0000
    modifies buffer
    ensures verdict == 0 <==> Dropped(Target(Zeroed(old(buffer[..]), offset), offset)) % 255 == 0
    ensures (buffer.Length - offset - 1) * 254 <= INT_MAX ==> verdict == 0
  {
    hide Sum0, Sum1, Target, Dropped, Zeroed, Generated, Verdict;
    ghost var s := buffer[..];
    var written := Checksum(buffer, offset);
    verdict := Checksum(buffer, VALIDATE);
    ValidatesIff(s, offset);
    if (buffer.Length - offset - 1) * 254 <= INT_MAX { ShortTailsValidate(s, offset); }
  }
}
