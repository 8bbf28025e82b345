/** The domain rules of dmr.h, and the hash input and comparison that dmr.c hands to the table. */
module DomainRule {
  import opened Bytes
  import opened Wrappers

  const MAX_HOST_LEN: nat := 128

  datatype Record = Record(host: seq<byte>, hostLen: nat, actions: nat, cnt: nat, vcnt: nat)

  /** A rule's host field is a zero-terminated string in a fixed array; host_len is stored beside it. */
  type Rule = r: Record | |r.host| == MAX_HOST_LEN && 0 in r.host && r.hostLen <= MAX_HOST_LEN
    witness Blank()

  function Blank(): (r: Record)
    ensures |r.host| == MAX_HOST_LEN && 0 in r.host && r.hostLen == 0
  {
    var host: seq<byte> := seq(MAX_HOST_LEN, _ => 0);
    assert host[0] == 0;
    Record(host, 0, 0, 0, 0)
  }

  /** The string a zero-terminated array holds. */
  function CStr(s: seq<byte>): (name: seq<byte>)
    requires 0 in s
    ensures 0 !in name && |name| < |s|
  {
    if s[0] == 0 then [] else [s[0]] + CStr(s[1..])
  }

  function Name(r: Rule): seq<byte> {
    CStr(r.host)
  }

  lemma {:induction false} StrCmpIsEquality(a: seq<byte>, b: seq<byte>)
    requires 0 !in a && 0 !in b
    ensures StrCmp(a, b) == 0 <==> a == b
  {
    if a != [] && b != [] && a[0] == b[0] {
      StrCmpIsEquality(a[1..], b[1..]);
      assert a == [a[0]] + a[1..] && b == [b[0]] + b[1..];
    } else {
      assert a != [] ==> a[0] in a;
      assert b != [] ==> b[0] in b;
    }
  }

  /** dmr_cmp_func */
  function DmrCmp(d1: Option<Rule>, d2: Option<Rule>): int {
    if d1.None? || d2.None? then -2 else StrCmp(Name(d1.value), Name(d2.value))
  }

  lemma CmpComparesNames(d1: Option<Rule>, d2: Option<Rule>)
    ensures DmrCmp(d1, d2) == 0 <==> d1.Some? && d2.Some? && Name(d1.value) == Name(d2.value)
  {
    if d1.Some? && d2.Some? {
      StrCmpIsEquality(Name(d1.value), Name(d2.value));
    }
  }

  /** The octets dmr_hash_func hashes. */
  function Hashed(r: Rule): seq<byte> {
    r.host[..r.hostLen]
  }

  /** The key dmr_get builds: the string in a zeroed record. */
  function KeyOf(key: seq<byte>): (r: Rule)
    requires 0 !in key && |key| < MAX_HOST_LEN
    ensures Name(r) == key && Hashed(r) == key
  {
    var host: seq<byte> := key + seq(MAX_HOST_LEN - |key|, _ => 0);
    assert host[|key|] == 0;
    CStrOf(key, MAX_HOST_LEN - |key|);
    assert host[..|key|] == key;
    Record(host, |key|, 0, 0, 0)
  }

  lemma {:induction false} CStrOf(key: seq<byte>, zeros: nat)
    requires 0 !in key && zeros > 0
    ensures 0 in key + seq(zeros, _ => 0)
    ensures CStr(key + seq(zeros, _ => 0)) == key
  {
    var s: seq<byte> := key + seq(zeros, _ => 0);
    assert s[|key|] == 0;
    if key != [] {
      CStrOf(key[1..], zeros);
      assert s[1..] == key[1..] + seq(zeros, _ => 0);
      assert s[0] == key[0] && key[0] in key;
    }
  }
}
