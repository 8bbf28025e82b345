/** Streaming MD5 and HMAC-MD5 of md5.c. The block function md5_calc is a parameter: every statement
    holds for whatever function of the state and a 64-octet block it is. */
module Md5 {
  import opened Bits
  import opened Bytes

  const BUFLEN: nat := 64
  const U64: nat := 0x1_0000_0000_0000_0000

  datatype State = State(a: word, b: word, c: word, d: word)

  type BlockFn = (State, seq<byte>) -> State

  const INIT := State(0x67452301, 0xefcdab89, 0x98badcfe, 0x10325476)

  // ---- RFC 1321, sections 3.1 to 3.5 ----

  function Zeros(n: nat): (s: seq<byte>)
    ensures |s| == n && forall i :: 0 <= i < n ==> s[i] == 0
  {
    seq(n, i => 0)
  }

  /** The k low octets of n, least significant first. */
  function LittleEndian(n: nat, k: nat): (s: seq<byte>)
    ensures |s| == k
  {
    if k == 0 then [] else [n % 256] + LittleEndian(n / 256, k - 1)
  }

  /** 0x80, then zeros up to 8 octets short of a block boundary. */
  function Padding(len: nat): (p: seq<byte>)
    ensures (len + |p|) % BUFLEN == 56 && 1 <= |p| <= BUFLEN
  {
    var r := len % BUFLEN;
    [0x80] + Zeros(if r < 56 then 55 - r else 119 - r)
  }

  /** The message with its padding and a 64-bit length. */
  function PaddedWith(m: seq<byte>, count: nat): (p: seq<byte>)
    ensures |p| % BUFLEN == 0
  {
    m + Padding(|m|) + LittleEndian(count, 8)
  }

  function Padded(m: seq<byte>): seq<byte> {
    PaddedWith(m, 8 * |m| % U64)
  }

  /** The block function applied to consecutive blocks. */
  function Blocks(compress: BlockFn, st: State, s: seq<byte>): State
    requires |s| % BUFLEN == 0
  {
    if s == [] then st
    else compress(Blocks(compress, st, s[..|s| - BUFLEN]), s[|s| - BUFLEN..])
  }

  function Output(st: State): (digest: seq<byte>)
    ensures |digest| == 16
  {
    LittleEndian(st.a, 4) + LittleEndian(st.b, 4) + LittleEndian(st.c, 4) + LittleEndian(st.d, 4)
  }

  function Digest(compress: BlockFn, m: seq<byte>): (digest: seq<byte>)
    ensures |digest| == 16
  {
    Output(Blocks(compress, INIT, Padded(m)))
  }

  /** What the padded message looks like: the message, the octet 0x80, zeros, and in the last eight octets the length
      in bits modulo 2^64, in as few blocks as hold them. */
  lemma PaddedLooksLike(m: seq<byte>)
    ensures var p := Padded(m);
            var n: nat := |p| - 8;
            && |p| % 64 == 0 && |m| + 9 <= |p| < |m| + 9 + 64
            && p[..|m|] == m && p[|m|] == 0x80 && (forall i :: |m| < i < n ==> p[i] == 0)
            && WordOf(p[n], p[n + 1], p[n + 2], p[n + 3])
               + 0x1_0000_0000 * WordOf(p[n + 4], p[n + 5], p[n + 6], p[n + 7])
               == 8 * |m| % 0x1_0000_0000_0000_0000
  {
    hide LittleEndian, WordOf;
    var count := 8 * |m| % U64;
    EightOctets(count);
    var l := LittleEndian(count, 8);
    var p := Padded(m);
    var n: nat := |p| - 8;
    assert forall j :: 0 <= j < 8 ==> p[n + j] == l[j];
    assert p[n] == l[0];
  }

  lemma EightOctets(count: nat)
    requires count < U64
    ensures var l := LittleEndian(count, 8);
            WordOf(l[0], l[1], l[2], l[3]) + 0x1_0000_0000 * WordOf(l[4], l[5], l[6], l[7]) == count
  {
    var low: word, high: word := count % U32, count / U32;
    FourOctets(low);
    FourOctets(high);
    HalvesOf(count);
  }

  /** The low and the high half of eight octets. */
  lemma HalvesOf(count: nat)
    requires count < U64
    ensures LittleEndian(count, 8) == LittleEndian(count % U32, 4) + LittleEndian(count / U32, 4)
  {
    LowOctets(count, 4, 4);
    assert Pow256(4) == U32;
  }

  function Pow256(k: nat): (p: nat)
    ensures p > 0
  {
    if k == 0 then 1 else 256 * Pow256(k - 1)
  }

  lemma LittleEndianStep(n: nat, k: nat)
    requires k > 0
    ensures LittleEndian(n, k) == [n % 256] + LittleEndian(n / 256, k - 1)
  {
  }

  lemma OneMoreOctet(n: nat, low: nat, q: nat, y: nat, z: nat, k: nat, j: nat)
    requires k > 0 && n / 256 == q && low % 256 == n % 256 && low / 256 == y
    requires LittleEndian(q, k - 1 + j) == LittleEndian(y, k - 1) + LittleEndian(z, j)
    ensures LittleEndian(n, k + j) == LittleEndian(low, k) + LittleEndian(z, j)
  {
    hide LittleEndian;
    LittleEndianStep(n, k + j);
    LittleEndianStep(low, k);
    assert [n % 256] + (LittleEndian(y, k - 1) + LittleEndian(z, j))
        == ([n % 256] + LittleEndian(y, k - 1)) + LittleEndian(z, j);
  }

  lemma {:induction false} LowOctets(n: nat, k: nat, j: nat)
    ensures LittleEndian(n, k + j) == LittleEndian(LowPart(n, Pow256(k)), k) + LittleEndian(HighPart(n, Pow256(k)), j)
  {
    hide LittleEndian, LowPart, HighPart, Pow256;
    PowStep(k);
    if k > 0 {
      var p := Pow256(k - 1);
      LowOctets(n / 256, k - 1, j);
      SplitQuotient(n, p);
      OneMoreOctet(n, LowPart(n, 256 * p), n / 256, LowPart(n / 256, p), HighPart(n / 256, p), k, j);
    } else {
      NoOctets(n);
      assert [] + LittleEndian(n, j) == LittleEndian(n, j);
    }
  }

  lemma PowStep(k: nat)
    ensures Pow256(k) == if k == 0 then 1 else 256 * Pow256(k - 1)
  {
  }

  function LowPart(n: nat, p: nat): nat
    requires p > 0
  {
    n % p
  }

  function HighPart(n: nat, p: nat): nat
    requires p > 0
  {
    n / p
  }

  lemma NoOctets(n: nat)
    ensures LittleEndian(LowPart(n, 1), 0) == [] && HighPart(n, 1) == n
  {
  }

  lemma SplitQuotient(n: nat, p: nat)
    requires p > 0
    ensures LowPart(n, 256 * p) % 256 == n % 256 && LowPart(n, 256 * p) / 256 == LowPart(n / 256, p)
    ensures HighPart(n, 256 * p) == HighPart(n / 256, p)
  {
    var q, r := n / 256, n % 256;
    var a, b := q / p, q % p;
    assert q == p * a + b && n == 256 * q + r;
    assert 256 * (p * a) == (256 * p) * a;
    assert n == (256 * p) * a + (256 * b + r);
    DivModUnique(n, 256 * p, a, 256 * b + r);
    DivModUnique(256 * b + r, 256, b, r);
  }

  // ---- The streaming context ----

  function Whole(n: nat): (w: nat)
    ensures w % BUFLEN == 0 && w <= n < w + BUFLEN
  {
    n / BUFLEN * BUFLEN
  }

  lemma OneMoreBlock(compress: BlockFn, st: State, s: seq<byte>, b: seq<byte>)
    requires |s| % BUFLEN == 0 && |b| == BUFLEN
    ensures (|s| + |b|) % BUFLEN == 0 && Blocks(compress, st, s + b) == compress(Blocks(compress, st, s), b)
  {
    assert (s + b)[..|s + b| - BUFLEN] == s && (s + b)[|s + b| - BUFLEN..] == b;
  }

  method Copy(dst: array<byte>, at: nat, src: seq<byte>)
    requires at + |src| <= dst.Length
    modifies dst
    ensures dst[..] == old(dst[..at]) + src + old(dst[at + |src|..])
  {
    for k := 0 to |src|
      invariant forall j :: 0 <= j < dst.Length ==>
                  dst[j] == if at <= j < at + k then src[j - at] else old(dst[j])
    {
      dst[at + k] := src[k];
    }
    assert dst[..] == dst[..at] + dst[at..at + |src|] + dst[at + |src|..];
  }

  class Md5Ctx {
    const compress: BlockFn
    var st: State
    var n: nat
    var i: nat
    const buf: array<byte>
    ghost var msg: seq<byte>

    /** The state has absorbed the whole blocks of m; the buffer holds the rest. */
    ghost predicate Holds(m: seq<byte>)
      reads this`st, this`i, buf
    {
      && buf.Length == BUFLEN && i < BUFLEN
      && |m| == Whole(|m|) + i
      && st == Blocks(compress, INIT, m[..Whole(|m|)])
      && buf[..i] == m[Whole(|m|)..]
    }

    ghost predicate Valid()
      reads this, buf
    {
      n < U64 && Holds(msg)
    }

    /** The bit counter agrees with the message. */
    ghost predicate Counted()
      reads this
    {
      n == 8 * |msg| % U64
    }

    constructor (compress: BlockFn)
      ensures Valid() && Counted() && msg == [] && this.compress == compress && fresh(buf)
    {
      this.compress := compress;
      st, n, i := INIT, 0, 0;
      buf := new byte[BUFLEN](_ => 0);
      msg := [];
    }

    /** The blocks of s have been run through the block function. */
    ghost predicate Absorbed(s: seq<byte>)
      reads this
    {
      |s| % BUFLEN == 0 && st == Blocks(compress, INIT, s)
    }

    /** md5_calc. */
    method Calc(block: seq<byte>, ghost before: seq<byte>)
      requires Absorbed(before) && |block| == BUFLEN
      modifies this`st
      ensures Absorbed(before + block)
    {
      OneMoreBlock(compress, INIT, before, block);
      st := compress(st, block);
    }

    /** The whole blocks of input from gap on, straight from the input. */
    method LoopBlocks(input: seq<byte>, gap: nat, ghost before: seq<byte>) returns (j: nat)
      requires gap <= |input| && Absorbed(before + input[..gap])
      modifies this`st
      ensures gap <= j <= |input| < j + BUFLEN
      ensures Absorbed(before + input[..j])
    {
      hide Blocks;
      j := gap;
      while j + BUFLEN <= |input|
        invariant gap <= j <= |input| && Absorbed(before + input[..j])
      {
        Calc(input[j..j + BUFLEN], before + input[..j]);
        assert before + input[..j] + input[j..j + BUFLEN] == before + input[..j + BUFLEN];
        j := j + BUFLEN;
      }
    }

    /** The buffered octets and the first ones of the input make a block. */
    method FillBlock(head: seq<byte>, ghost whole: nat)
      requires Valid() && whole == Whole(|msg|) && |head| == BUFLEN - i
      modifies this`st, buf
      ensures Absorbed(msg + head)
    {
      hide Blocks, Whole;
      Copy(buf, i, head);
      assert buf[..] == msg[whole..] + head;
      Calc(buf[..], msg[..whole]);
      assert msg[..whole] + buf[..] == msg + head;
    }

    /** The input completes a block. */
    method TakeBlocks(input: seq<byte>)
      requires Valid() && |input| >= BUFLEN - i
      modifies this`st, this`i, buf
      ensures Holds(msg + input)
    {
      hide Blocks, Whole;
      var gap := BUFLEN - i;
      FillBlock(input[..gap], Whole(|msg|));
      var j := LoopBlocks(input, gap, msg);
      i := |input| - j;
      Copy(buf, 0, input[j..]);
      WholeIs(|msg| + |input|, |msg| + j);
      Rejoin(msg, input, j);
    }

    /** The input is only buffered. */
    method KeepOctets(input: seq<byte>)
      requires Valid() && |input| < BUFLEN - i
      modifies this`i, buf
      ensures Holds(msg + input)
    {
      hide Blocks, Whole;
      Copy(buf, i, input);
      i := i + |input|;
      WholeIs(|msg| + |input|, Whole(|msg|));
      Extend(msg, input, Whole(|msg|));
    }

    /** md5_loop: the length is multiplied by 8 in 32 bits. */
    method Loop(input: seq<byte>)
      requires Valid() && |input| + BUFLEN < U32
      modifies this`st, this`n, this`i, this`msg, buf
      ensures Valid() && msg == old(msg) + input
      ensures n == (old(n) + 8 * |input| % U32) % U64
    {
      hide Holds;
      HasRoom();
      n := (n + 8 * |input| % U32) % U64;
      if |input| >= BUFLEN - i {
        TakeBlocks(input);
      } else {
        KeepOctets(input);
      }
      msg := msg + input;
    }

    lemma HasRoom()
      requires Holds(msg)
      ensures i < BUFLEN
    {
    }

    /** The padding fits behind the buffered octets. */
    method PadHere(ghost whole: nat)
      requires Valid() && whole == Whole(|msg|) && BUFLEN - i > 8
      modifies buf
      ensures buf[..56] == msg[whole..] + Padding(|msg|)
    {
      hide Blocks, Padding, Paddat, Whole;
      PadPieces(|msg|);
      Copy(buf, i, Paddat()[..BUFLEN - i - 8]);
    }

    /** The padding fills this block and starts another. */
    method PadOver(ghost whole: nat)
      requires Valid() && whole == Whole(|msg|) && BUFLEN - i <= 8
      modifies this`st, buf
      ensures Absorbed(msg + Padding(|msg|)[..BUFLEN - i])
      ensures buf[..56] == Padding(|msg|)[BUFLEN - i..]
    {
      hide Blocks, Padding, Paddat, Whole;
      PadPieces(|msg|);
      var gap := BUFLEN - i;
      Copy(buf, i, Paddat()[..gap]);
      assert buf[..] == msg[whole..] + Paddat()[..gap];
      Calc(buf[..], msg[..whole]);
      assert msg[..whole] + buf[..] == msg + Paddat()[..gap];
      Copy(buf, 0, Paddat()[gap..gap + 56]);
    }

    /** The first half of md5_pad: 0x80 and zeros up to the last 8 octets of a block. */
    method PadZeros() returns (ghost before: seq<byte>)
      requires Valid()
      modifies this`st, buf
      ensures Absorbed(before) && before + buf[..56] == msg + Padding(|msg|)
    {
      hide Blocks, Padding, Whole;
      ghost var whole, p := Whole(|msg|), Padding(|msg|);
      var gap := BUFLEN - i;
      if gap > 8 {
        PadHere(whole);
        before := msg[..whole];
        assert before + (msg[whole..] + p) == msg + p;
      } else {
        PadOver(whole);
        before := msg + p[..gap];
        assert before + p[gap..] == msg + p;
      }
    }

    /** md5_pad: the padding completes the last block or spills into one more. */
    method Pad()
      requires Valid()
      modifies this`st, buf
      ensures st == Blocks(compress, INIT, PaddedWith(msg, n))
    {
      hide Blocks, Padding, LittleEndian, Whole;
      ghost var before := PadZeros();
      ghost var head := buf[..56];
      Copy(buf, 56, LittleEndian(n, 8));
      assert buf[..] == head + LittleEndian(n, 8);
      Calc(buf[..], before);
      Append(before, head, msg + Padding(|msg|), LittleEndian(n, 8));
    }

    /** md5_result: the octets of the state words, from which the words can be read back. */
    method Result() returns (digest: seq<byte>)
      ensures digest == Output(st)
      ensures forall j :: 0 <= j < 4 ==>
                WordOf(digest[4 * j], digest[4 * j + 1], digest[4 * j + 2], digest[4 * j + 3]) == StateWord(st, j)
    {
      hide Output;
      var d := new byte[16];
      for k := 0 to 16
        invariant forall i :: 0 <= i < k ==> d[i] == StateOctet(st, i)
      {
        d[k] := StateOctet(st, k);
      }
      digest := d[..];
      OutputOctets(st, digest);
    }
  }

  function StateWord(st: State, j: nat): word
    requires j < 4
  {
    if j == 0 then st.a else if j == 1 then st.b else if j == 2 then st.c else st.d
  }

  /** The octets of the state as it lies in memory on a little-endian host. */
  function StateOctet(st: State, k: nat): byte
    requires k < 16
  {
    var w := StateWord(st, k / 4);
    (if k % 4 == 0 then w else if k % 4 == 1 then w / 0x100 else if k % 4 == 2 then w / 0x1_0000
     else w / 0x100_0000) % 0x100
  }

  lemma FourOctets(w: word)
    ensures LittleEndian(w, 4) == [w % 0x100, w / 0x100 % 0x100, w / 0x1_0000 % 0x100, w / 0x100_0000 % 0x100]
    ensures WordOf(w % 0x100, w / 0x100 % 0x100, w / 0x1_0000 % 0x100, w / 0x100_0000 % 0x100) == w
  {
    assert LittleEndian(w / 0x100_0000, 1) == [w / 0x100_0000 % 0x100];
    assert LittleEndian(w / 0x1_0000, 2) == [w / 0x1_0000 % 0x100, w / 0x100_0000 % 0x100];
  }

  lemma OutputOctets(st: State, digest: seq<byte>)
    requires |digest| == 16 && forall i :: 0 <= i < 16 ==> digest[i] == StateOctet(st, i)
    ensures digest == Output(st)
    ensures forall j :: 0 <= j < 4 ==>
              WordOf(digest[4 * j], digest[4 * j + 1], digest[4 * j + 2], digest[4 * j + 3]) == StateWord(st, j)
  {
    hide LittleEndian, WordOf;
    FourOctets(st.a);
    FourOctets(st.b);
    FourOctets(st.c);
    FourOctets(st.d);
    assert digest[0..4] == LittleEndian(st.a, 4) && digest[4..8] == LittleEndian(st.b, 4);
    assert digest[8..12] == LittleEndian(st.c, 4) && digest[12..16] == LittleEndian(st.d, 4);
    assert digest == digest[0..4] + digest[4..8] + digest[8..12] + digest[12..16];
    forall j | 0 <= j < 4
      ensures WordOf(digest[4 * j], digest[4 * j + 1], digest[4 * j + 2], digest[4 * j + 3]) == StateWord(st, j)
    {
      assert j == 0 || j == 1 || j == 2 || j == 3;
    }
  }

  /** md5_paddat. */
  function Paddat(): (p: seq<byte>)
    ensures |p| == BUFLEN
  {
    [0x80] + Zeros(BUFLEN - 1)
  }

  /** The pieces md5_pad copies out of md5_paddat make up the padding. */
  lemma PadPieces(len: nat)
    ensures var gap := BUFLEN - (len - Whole(len));
            var p := Padding(len);
            if gap > 8 then Paddat()[..gap - 8] == p
            else Paddat()[..gap] == p[..gap] && Paddat()[gap..gap + 56] == p[gap..]
  {
    assert len - Whole(len) == len % BUFLEN;
  }

  lemma Rejoin(m: seq<byte>, input: seq<byte>, j: nat)
    requires j <= |input|
    ensures (m + input)[..|m| + j] == m + input[..j] && (m + input)[|m| + j..] == input[j..]
  {
  }

  lemma Extend(m: seq<byte>, input: seq<byte>, w: nat)
    requires w <= |m|
    ensures (m + input)[..w] == m[..w] && (m + input)[w..] == m[w..] + input
  {
  }

  lemma Append(a: seq<byte>, b: seq<byte>, ab: seq<byte>, c: seq<byte>)
    requires a + b == ab
    ensures a + (b + c) == ab + c
  {
  }

  lemma WholeIs(n: nat, w: nat)
    requires w % BUFLEN == 0 && w <= n < w + BUFLEN
    ensures Whole(n) == w
  {
  }

  /** A correct bit counter stays correct if and only if the piece is shorter than 2^29 octets. */
  lemma CountIff(count: nat, len: nat, piece: nat)
    requires count == 8 * len % U64 && piece < U32
    ensures (count + 8 * piece % U32) % U64 == 8 * (len + piece) % U64 <==> piece < 0x2000_0000
  {
    var total, low, lost := 8 * (len + piece), 8 * piece % U32, 8 * piece / U32;
    SameRemainder(total, count + low + U32 * lost, U64, 8 * len / U64);
    RemainderMoves(count + low, U32 * lost, U64);
  }

  function Concat(pieces: seq<seq<byte>>): seq<byte> {
    if pieces == [] then [] else Concat(pieces[..|pieces| - 1]) + pieces[|pieces| - 1]
  }

  /** However a message is split into pieces, feeding them one by one gives the digest of the whole. */
  method DigestPieces(compress: BlockFn, pieces: seq<seq<byte>>) returns (digest: seq<byte>)
    requires forall k :: 0 <= k < |pieces| ==> |pieces[k]| < 0x2000_0000
    ensures digest == Digest(compress, Concat(pieces))
  {
    hide Blocks, Padding, Whole, Output;
    var ctx := new Md5Ctx(compress);
    for k := 0 to |pieces|
      invariant ctx.Valid() && ctx.Counted() && ctx.compress == compress && fresh(ctx) && fresh(ctx.buf)
      invariant ctx.msg == Concat(pieces[..k])
    {
      assert pieces[..k + 1][..k] == pieces[..k];
      CountIff(ctx.n, |ctx.msg|, |pieces[k]|);
      ctx.Loop(pieces[k]);
    }
    assert pieces[..|pieces|] == pieces;
    ctx.Pad();
    digest := ctx.Result();
  }

  // ---- RFC 2104 ----

  function XorByte(x: byte, y: byte): byte {
    assert Pow2(8) == 256;
    XorBound(x, y, 8);
    BitXor(x, y)
  }

  function XorAll(k: seq<byte>, pad: byte): (r: seq<byte>)
    ensures |r| == |k|
  {
    seq(|k|, i requires 0 <= i < |k| => XorByte(k[i], pad))
  }

  /** The key as a block: hashed when longer than a block, then filled with zeros. */
  function BlockKey(compress: BlockFn, key: seq<byte>): (k: seq<byte>)
    ensures |k| == BUFLEN
  {
    var k := if |key| > BUFLEN then Digest(compress, key) else key;
    k + Zeros(BUFLEN - |k|)
  }

  /** H(K XOR opad, H(K XOR ipad, text)). */
  function Hmac(compress: BlockFn, text: seq<byte>, key: seq<byte>): seq<byte> {
    var k := BlockKey(compress, key);
    Digest(compress, XorAll(k, 0x5c) + Digest(compress, XorAll(k, 0x36) + text))
  }

  /** A key longer than a block counts as its digest, and one shorter than a block as if zeros followed it. */
  lemma KeysThatCountAlike(compress: BlockFn, text: seq<byte>, key: seq<byte>)
    ensures |key| > 64 ==> Hmac(compress, text, key) == Hmac(compress, text, Digest(compress, key))
    ensures |key| < 64 ==> Hmac(compress, text, key) == Hmac(compress, text, key + [0])
  {
    hide Digest;
    if |key| < 64 {
      assert key + Zeros(BUFLEN - |key|) == (key + [0]) + Zeros(BUFLEN - |key + [0]|);
    }
  }

  /** With a key of one block: the digest of the key xored with 0x5c and the digest of the key xored with 0x36 and the
      text. */
  lemma HmacOfBlock(compress: BlockFn, text: seq<byte>, key: seq<byte>, inner: seq<byte>, outer: seq<byte>)
    requires |key| == |inner| == |outer| == 64
    requires forall i :: 0 <= i < 64 ==> inner[i] == BitXor(key[i], 0x36) && outer[i] == BitXor(key[i], 0x5c)
    ensures Hmac(compress, text, key) == Digest(compress, outer + Digest(compress, inner + text))
  {
    hide Digest;
    assert key + Zeros(0) == key;
    assert XorAll(key, 0x36) == inner && XorAll(key, 0x5c) == outer;
  }

  method XorInto(pad: array<byte>, x: byte)
    requires pad.Length == BUFLEN + 1
    modifies pad
    ensures pad[..BUFLEN] == XorAll(old(pad[..BUFLEN]), x)
  {
    for i := 0 to BUFLEN
      invariant forall j :: 0 <= j < i ==> pad[j] == XorByte(old(pad[j]), x)
      invariant forall j :: i <= j < pad.Length ==> pad[j] == old(pad[j])
    {
      pad[i] := XorByte(pad[i], x);
    }
  }

  /** One pad: 65 zeroed octets, the key copied in, the first 64 xored. */
  method MakePad(key: seq<byte>, x: byte) returns (pad: array<byte>)
    requires |key| <= BUFLEN
    ensures fresh(pad) && pad.Length == BUFLEN + 1
    ensures pad[..BUFLEN] == XorAll(key + Zeros(BUFLEN - |key|), x)
  {
    pad := new byte[BUFLEN + 1](_ => 0);
    Copy(pad, 0, key);
    assert pad[..BUFLEN] == key + Zeros(BUFLEN - |key|);
    XorInto(pad, x);
  }

  lemma ConcatTwo(x: seq<byte>, y: seq<byte>)
    ensures Concat([x, y]) == x + y && Concat([x]) == x
  {
    assert [x, y][..1] == [x] && [x][..0] == [];
    assert Concat([x]) == [] + x == x;
  }

  /** hmac_md5 computes HMAC with MD5, for texts and keys of fewer than 2^29 octets. */
  method HmacMd5(compress: BlockFn, text: seq<byte>, key: seq<byte>) returns (digest: seq<byte>)
    requires |text| < 0x2000_0000 && |key| < 0x2000_0000
    ensures digest == Hmac(compress, text, key)
  {
    hide Digest, XorAll;
    var k := key;
    if |key| > 64 {
      ConcatTwo(key, []);
      k := DigestPieces(compress, [key]);
    }
    var k_ipad := MakePad(k, 0x36);
    var k_opad := MakePad(k, 0x5c);
    ConcatTwo(k_ipad[..64], text);
    digest := DigestPieces(compress, [k_ipad[..64], text]);
    ConcatTwo(k_opad[..64], digest);
    digest := DigestPieces(compress, [k_opad[..64], digest]);
  }
}
