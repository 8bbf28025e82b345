/** Bob Jenkins' hash of jhash.c, over octets and over 32-bit words. */
module JHash {
  import opened Bits
  import opened Bytes

  const GOLDEN: word := 0x9e3779b9

  // ---- Arithmetic of u_int32_t ----

  function Add(x: word, y: int): word { (x + y) % U32 }

  function Sub(x: word, y: int): word { (x - y) % U32 }

  function Xor(x: word, y: word): word {
    assert Pow2(32) == U32 by { Pow2Of32(); }
    XorBound(x, y, 32);
    BitXor(x, y)
  }

  function Shr(x: word, k: nat): word {
    ShrinkBound(x, Pow2(k));
    x / Pow2(k)
  }

  function Shl(x: word, k: nat): word {
    (x * Pow2(k)) % U32
  }

  lemma ShrinkBound(x: word, d: nat)
    requires d >= 1
    ensures 0 <= x / d < U32
  {
    QuotientShrinks(x / d, d, x % d);
  }

  lemma QuotientShrinks(q: int, d: int, r: int)
    requires 0 <= r < d && d * q + r >= 0
    ensures 0 <= q <= d * q + r
  {
    ProductGrows(d, q);
    OneLess(d, q);
    if q >= 0 {
      NatProduct(d - 1, q);
    }
  }

  lemma OneLess(d: int, q: int)
    ensures d * q == (d - 1) * q + q
  {
  }

  lemma NatProduct(a: nat, b: nat)
    ensures 0 <= a * b
  {
  }

  datatype Triple = Triple(a: word, b: word, c: word)

  // ---- The mixing step ----

  /** One line of __jhash_mix: x -= y; x -= z; x ^= t. */
  function Stir(x: word, y: word, z: word, t: word): word {
    Xor(Sub(Sub(x, y), z), t)
  }

  function Unstir(x: word, y: word, z: word, t: word): word {
    Add(Add(Xor(x, t), z), y)
  }

  function Mix(t: Triple): Triple {
    var a1 := Stir(t.a, t.b, t.c, Shr(t.c, 13));
    var b1 := Stir(t.b, t.c, a1, Shl(a1, 8));
    var c1 := Stir(t.c, a1, b1, Shr(b1, 13));
    var a2 := Stir(a1, b1, c1, Shr(c1, 12));
    var b2 := Stir(b1, c1, a2, Shl(a2, 16));
    var c2 := Stir(c1, a2, b2, Shr(b2, 5));
    var a3 := Stir(a2, b2, c2, Shr(c2, 3));
    var b3 := Stir(b2, c2, a3, Shl(a3, 10));
    var c3 := Stir(c2, a3, b3, Shr(b3, 15));
    Triple(a3, b3, c3)
  }

  /** The nine lines undone, last first. */
  function Unmix(t: Triple): Triple {
    var c2 := Unstir(t.c, t.a, t.b, Shr(t.b, 15));
    var b2 := Unstir(t.b, c2, t.a, Shl(t.a, 10));
    var a2 := Unstir(t.a, b2, c2, Shr(c2, 3));
    var c1 := Unstir(c2, a2, b2, Shr(b2, 5));
    var b1 := Unstir(b2, c1, a2, Shl(a2, 16));
    var a1 := Unstir(a2, b1, c1, Shr(c1, 12));
    var c0 := Unstir(c1, a1, b1, Shr(b1, 13));
    var b0 := Unstir(b1, c0, a1, Shl(a1, 8));
    var a0 := Unstir(a1, b0, c0, Shr(c0, 13));
    Triple(a0, b0, c0)
  }

  lemma XorCancels(x: word, t: word)
    ensures Xor(Xor(x, t), t) == x
  {
    XorTwice(x, t);
  }

  lemma SubAdd(x: word, y: word)
    ensures Add(Sub(x, y), y) == x && Sub(Add(x, y), y) == x
  {
    DivModUnique(Sub(x, y) + y, U32, -((x - y) / U32), x);
    DivModUnique(Add(x, y) - y, U32, -((x + y) / U32), x);
  }

  lemma StirInverse(x: word, y: word, z: word, t: word)
    ensures Unstir(Stir(x, y, z, t), y, z, t) == x
    ensures Stir(Unstir(x, y, z, t), y, z, t) == x
  {
    hide Add, Sub, Xor;
    XorCancels(Sub(Sub(x, y), z), t);
    SubAdd(Sub(x, y), z);
    SubAdd(x, y);
    SubAdd(Add(Xor(x, t), z), y);
    SubAdd(Xor(x, t), z);
    XorCancels(x, t);
  }

  /** Mixing is a bijection on triples of words. */
  lemma MixIsBijective(t: Triple)
    ensures Unmix(Mix(t)) == t && Mix(Unmix(t)) == t
  {
    hide Stir, Unstir, Shr, Shl;
    forall x: word, y: word, z: word, s: word
      ensures Unstir(Stir(x, y, z, s), y, z, s) == x && Stir(Unstir(x, y, z, s), y, z, s) == x
    {
      StirInverse(x, y, z, s);
    }
  }

  // ---- Octets and words ----

  function OctetsOf(w: word): (s: seq<byte>)
    ensures |s| == 4
    ensures WordOf(s[0], s[1], s[2], s[3]) == w
  {
    var q1 := w / 0x100;
    var q2 := q1 / 0x100;
    var q3 := q2 / 0x100;
    [w % 0x100, q1 % 0x100, q2 % 0x100, q3]
  }

  /** A word array as it lies in memory on a little-endian host. */
  function Octets(k: seq<word>): (s: seq<byte>)
    ensures |s| == 4 * |k|
  {
    if k == [] then [] else Octets(k[..|k| - 1]) + OctetsOf(k[|k| - 1])
  }

  /** The octet at i, zero past the end. */
  function At(key: seq<byte>, i: nat): byte {
    if i < |key| then key[i] else 0
  }

  function WordAt(key: seq<byte>, i: nat): word {
    WordOf(At(key, i), At(key, i + 1), At(key, i + 2), At(key, i + 3))
  }

  lemma {:induction false} OctetsAt(k: seq<word>, i: nat)
    ensures WordAt(Octets(k), 4 * i) == if i < |k| then k[i] else 0
  {
    if i < |k| - 1 {
      OctetsAt(k[..|k| - 1], i);
    }
  }

  // ---- The two hashes ----

  function Absorb(t: Triple, x: word, y: word, z: word): Triple {
    Mix(Triple(Add(t.a, x), Add(t.b, y), Add(t.c, z)))
  }

  /** The state after the whole groups of three words. */
  function Groups(k: seq<word>, n: nat, initval: word): Triple
    requires 3 * n <= |k|
  {
    if n == 0 then Triple(GOLDEN, GOLDEN, initval)
    else Absorb(Groups(k, n - 1, initval), k[3 * n - 3], k[3 * n - 2], k[3 * n - 1])
  }

  /** The hash both routines compute: groups, length in octets, the last one or two words. */
  function Hash(k: seq<word>, initval: word): word {
    var n := |k| / 3;
    var t := Groups(k, n, initval);
    Mix(Triple(if |k| % 3 >= 1 then Add(t.a, k[3 * n]) else t.a,
               if |k| % 3 >= 2 then Add(t.b, k[3 * n + 1]) else t.b,
               Add(t.c, (4 * |k|) % U32))).c
  }

  method JHash2(k: seq<word>, initval: word) returns (h: word)
    requires |k| < U32
    ensures h == Hash(k, initval)
  {
    hide Mix, Add;
    var a, b, c := GOLDEN, GOLDEN, initval;
    var len, i := |k|, 0;
    ghost var n: nat := 0;
    while len >= 3
      invariant i == 3 * n && i + len == |k| && len >= 0
      invariant Triple(a, b, c) == Groups(k, n, initval)
    {
      var t := Mix(Triple(Add(a, k[i]), Add(b, k[i + 1]), Add(c, k[i + 2])));
      a, b, c := t.a, t.b, t.c;
      i, len, n := i + 3, len - 3, n + 1;
    }
    assert n == |k| / 3 && len == |k| % 3;
    c := Add(c, 4 * |k| % U32);
    if len >= 2 { b := Add(b, k[i + 1]); }
    if len >= 1 { a := Add(a, k[i]); }
    return Mix(Triple(a, b, c)).c;
  }

  function ByteGroups(key: seq<byte>, n: nat, initval: word): Triple
    requires 12 * n <= |key|
  {
    if n == 0 then Triple(GOLDEN, GOLDEN, initval)
    else Absorb(ByteGroups(key, n - 1, initval),
                WordAt(key, 12 * n - 12), WordAt(key, 12 * n - 8), WordAt(key, 12 * n - 4))
  }

  /** The hash of an octet string: groups of 12, the length, then the last 0 to 11 octets padded with
      zeros, the low octet of the third word being left to the length. */
  function ByteHash(key: seq<byte>, initval: word): word {
    var m := |key| / 12;
    var t := ByteGroups(key, m, initval);
    Mix(Triple(Add(t.a, WordAt(key, 12 * m)),
               Add(t.b, WordAt(key, 12 * m + 4)),
               Add(Add(t.c, |key| % U32), WordOf(0, At(key, 12 * m + 8), At(key, 12 * m + 9), At(key, 12 * m + 10))))).c
  }

  lemma AddTwice(x: word, y: int, z: int)
    ensures Add(Add(x, y), z) == Add(x, y + z)
    ensures Add(x, 0) == x
  {
  }

  /** Adding the octets of a word one by one, highest first, adds the word. */
  lemma AddFromTop(x: word, k0: byte, k1: byte, k2: byte, k3: byte)
    ensures Add(Add(Add(Add(x, 0x100_0000 * k3), 0x1_0000 * k2), 0x100 * k1), k0) == Add(x, WordOf(k0, k1, k2, k3))
  {
    hide Add;
    AddTwice(x, 0x100_0000 * k3, 0x1_0000 * k2);
    AddTwice(x, 0x100_0000 * k3 + 0x1_0000 * k2, 0x100 * k1);
    AddTwice(x, 0x100_0000 * k3 + 0x1_0000 * k2 + 0x100 * k1, k0);
  }

  /** One case of the switch: octet i is added when it exists. */
  method AddOctet(x: word, k: seq<byte>, i: nat, scale: nat) returns (r: word)
    ensures r == Add(x, scale * At(k, i))
  {
    r := x;
    AddTwice(x, 0, 0);
    if |k| > i { r := Add(r, scale * k[i]); }
  }

  /** The switch of jhash falls through from the last octet down to the first. */
  method AddTail(t: Triple, k: seq<byte>) returns (r: Triple)
    requires |k| <= 11
    ensures r == Triple(Add(t.a, WordAt(k, 0)), Add(t.b, WordAt(k, 4)),
                        Add(t.c, WordOf(0, At(k, 8), At(k, 9), At(k, 10))))
  {
    hide Add, WordOf, At;
    var c := AddOctet(t.c, k, 10, 0x100_0000);
    c := AddOctet(c, k, 9, 0x1_0000);
    c := AddOctet(c, k, 8, 0x100);
    AddFromTop(t.c, 0, At(k, 8), At(k, 9), At(k, 10));
    AddTwice(c, 0, 0);
    var b := AddOctet(t.b, k, 7, 0x100_0000);
    b := AddOctet(b, k, 6, 0x1_0000);
    b := AddOctet(b, k, 5, 0x100);
    b := AddOctet(b, k, 4, 1);
    AddFromTop(t.b, At(k, 4), At(k, 5), At(k, 6), At(k, 7));
    var a := AddOctet(t.a, k, 3, 0x100_0000);
    a := AddOctet(a, k, 2, 0x1_0000);
    a := AddOctet(a, k, 1, 0x100);
    a := AddOctet(a, k, 0, 1);
    AddFromTop(t.a, At(k, 0), At(k, 1), At(k, 2), At(k, 3));
    r := Triple(a, b, c);
  }

  lemma TailAt(key: seq<byte>, m: nat, i: nat)
    requires m <= |key|
    ensures At(key[m..], i) == At(key, m + i)
  {
  }

  method JHash(key: seq<byte>, initval: word) returns (h: word)
    requires |key| < U32
    ensures h == ByteHash(key, initval)
  {
    hide Mix, Add, WordOf;
    var t := Triple(GOLDEN, GOLDEN, initval);
    var len, i := |key|, 0;
    ghost var n: nat := 0;
    while len >= 12
      invariant i == 12 * n && i + len == |key| && len >= 0
      invariant t == ByteGroups(key, n, initval)
    {
      t := Mix(Triple(Add(t.a, WordAt(key, i)), Add(t.b, WordAt(key, i + 4)), Add(t.c, WordAt(key, i + 8))));
      i, len, n := i + 12, len - 12, n + 1;
    }
    assert n == |key| / 12 && len == |key| % 12;
    t := Triple(t.a, t.b, Add(t.c, |key| % U32));
    forall j: nat ensures At(key[i..], j) == At(key, i + j) { TailAt(key, i, j); }
    t := AddTail(t, key[i..]);
    return Mix(t).c;
  }

  /** A key of less than 12 octets: each octet that exists goes to its place in the first, second or third word, the
      length to the low octet of the third. */
  lemma ShortKey(key: seq<byte>, initval: word, o: seq<int>)
    requires |key| < 12 && |o| == 11 && forall i :: 0 <= i < 11 ==> o[i] == if i < |key| then key[i] as int else 0
    ensures ByteHash(key, initval)
            == Mix(Triple((GOLDEN + (o[0] + 0x100 * o[1] + 0x1_0000 * o[2] + 0x100_0000 * o[3])) % U32,
                          (GOLDEN + (o[4] + 0x100 * o[5] + 0x1_0000 * o[6] + 0x100_0000 * o[7])) % U32,
                          (initval + (|key| + (0x100 * o[8] + 0x1_0000 * o[9] + 0x100_0000 * o[10]))) % U32)).c
  {
    hide Mix, Add, WordAt, At, ByteGroups, WordOf;
    NoGroups(key, initval);
    PaddedOctets(key, o);
    AddTwice(initval, |key|, WordOf(0, At(key, 8), At(key, 9), At(key, 10)));
    AddIs(GOLDEN, WordAt(key, 0));
    AddIs(GOLDEN, WordAt(key, 4));
    AddIs(initval, |key| + WordOf(0, At(key, 8), At(key, 9), At(key, 10)));
  }

  lemma NoGroups(key: seq<byte>, initval: word)
    requires |key| < 12
    ensures |key| / 12 == 0 && |key| % U32 == |key| && ByteGroups(key, 0, initval) == Triple(GOLDEN, GOLDEN, initval)
  {
  }

  lemma AddIs(x: word, y: int)
    ensures Add(x, y) == (x + y) % U32
  {
  }

  lemma PaddedOctets(key: seq<byte>, o: seq<int>)
    requires |key| < 12 && |o| == 11 && forall i :: 0 <= i < 11 ==> o[i] == if i < |key| then key[i] as int else 0
    ensures WordAt(key, 0) == o[0] + 0x100 * o[1] + 0x1_0000 * o[2] + 0x100_0000 * o[3]
    ensures WordAt(key, 4) == o[4] + 0x100 * o[5] + 0x1_0000 * o[6] + 0x100_0000 * o[7]
    ensures WordOf(0, At(key, 8), At(key, 9), At(key, 10)) == 0x100 * o[8] + 0x1_0000 * o[9] + 0x100_0000 * o[10]
  {
  }

  // ---- The two agree ----

  lemma {:induction false} GroupsAgree(k: seq<word>, n: nat, initval: word)
    requires 3 * n <= |k|
    ensures ByteGroups(Octets(k), n, initval) == Groups(k, n, initval)
  {
    hide Absorb, WordAt, Octets;
    if n > 0 {
      GroupsAgree(k, n - 1, initval);
      OctetsAt(k, 3 * n - 3);
      OctetsAt(k, 3 * n - 2);
      OctetsAt(k, 3 * n - 1);
    }
  }

  lemma NoThirdWord(k: seq<word>)
    ensures var m := 12 * (|k| / 3); WordOf(0, At(Octets(k), m + 8), At(Octets(k), m + 9), At(Octets(k), m + 10)) == 0
  {
    hide Octets;
    assert |Octets(k)| <= 12 * (|k| / 3) + 8;
  }

  /** Hashing words is hashing their octets in little-endian order. */
  lemma HashesAgree(k: seq<word>, initval: word)
    ensures ByteHash(Octets(k), initval) == Hash(k, initval)
  {
    hide Mix, WordOf, WordAt, At, Octets, ByteGroups, Groups, Add;
    var n := |k| / 3;
    GroupsAgree(k, n, initval);
    OctetsAt(k, 3 * n);
    OctetsAt(k, 3 * n + 1);
    NoThirdWord(k);
    assert 4 * |k| / 12 == n;
    forall x: word ensures Add(x, 0) == x { AddTwice(x, 0, 0); }
  }

  /** jhash of n words with length 4n equals jhash2 with length n. */
  method HashBothWays(k: seq<word>, initval: word) returns (h: word, h2: word)
    requires |k| < 0x4000_0000
    ensures h == h2
  {
    h := JHash(Octets(k), initval);
    h2 := JHash2(k, initval);
    HashesAgree(k, initval);
  }
}
