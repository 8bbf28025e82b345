/** What the bucket table means: buckets of rules as a map from (bucket, name) to rule. */
module RuleMap {
  import opened Bytes
  import opened Wrappers
  import opened DomainRule

  datatype Key = Key(home: nat, name: seq<byte>)

  /** The first rule with this name, or |items|. */
  function IndexOf(items: seq<Rule>, name: seq<byte>): (k: nat)
    ensures k <= |items|
    ensures k < |items| ==> Name(items[k]) == name
    ensures forall i :: 0 <= i < k ==> Name(items[i]) != name
  {
    if items == [] || Name(items[0]) == name then 0 else 1 + IndexOf(items[1..], name)
  }

  function Find(items: seq<Rule>, name: seq<byte>): Option<Rule> {
    var k := IndexOf(items, name);
    if k < |items| then Some(items[k]) else None
  }

  function Put(items: seq<Rule>, r: Rule): seq<Rule> {
    var k := IndexOf(items, Name(r));
    if k < |items| then items[k := r] else items + [r]
  }

  function Remove(items: seq<Rule>, name: seq<byte>): seq<Rule> {
    var k := IndexOf(items, name);
    if k < |items| then items[..k] + items[k + 1..] else items
  }

  ghost predicate Unique(items: seq<Rule>) {
    forall i, j :: 0 <= i < j < |items| ==> Name(items[i]) != Name(items[j])
  }

  lemma PutKeepsUnique(items: seq<Rule>, r: Rule)
    requires Unique(items)
    ensures Unique(Put(items, r))
    ensures |Put(items, r)| == |items| + if Find(items, Name(r)).None? then 1 else 0
  {
  }

  lemma RemoveKeepsUnique(items: seq<Rule>, name: seq<byte>)
    requires Unique(items)
    ensures Unique(Remove(items, name))
    ensures |Remove(items, name)| == |items| - if Find(items, name).Some? then 1 else 0
  {
  }

  lemma UniqueIndex(items: seq<Rule>, i: nat)
    requires Unique(items) && i < |items|
    ensures IndexOf(items, Name(items[i])) == i
  {
  }

  lemma FindIff(items: seq<Rule>, r: Rule)
    requires Unique(items)
    ensures r in items <==> Find(items, Name(r)) == Some(r)
  {
    forall i | 0 <= i < |items| && items[i] == r ensures Find(items, Name(r)) == Some(r) {
      UniqueIndex(items, i);
    }
  }

  lemma FindAfterPut(items: seq<Rule>, r: Rule, name: seq<byte>)
    requires Unique(items)
    ensures Find(Put(items, r), name) == if name == Name(r) then Some(r) else Find(items, name)
  {
    hide IndexOf;
    PutKeepsUnique(items, r);
    var k := IndexOf(items, Name(r));
    var j := IndexOf(items, name);
    var out := Put(items, r);
    if name == Name(r) {
      UniqueIndex(out, k);
    } else if j < |items| {
      assert out[j] == items[j];
      UniqueIndex(out, j);
    } else {
      assert forall i :: 0 <= i < |out| ==> Name(out[i]) != name;
    }
  }

  lemma FindAfterRemove(items: seq<Rule>, gone: seq<byte>, name: seq<byte>)
    requires Unique(items)
    ensures Find(Remove(items, gone), name) == if name == gone then None else Find(items, name)
  {
    hide IndexOf;
    RemoveKeepsUnique(items, gone);
    var k := IndexOf(items, gone);
    var j := IndexOf(items, name);
    var out := Remove(items, gone);
    if k < |items| {
      assert forall i :: 0 <= i < |out| ==> out[i] == items[if i < k then i else i + 1];
      if name == gone || j == |items| {
        assert forall i :: 0 <= i < |out| ==> Name(out[i]) != name;
      } else {
        UniqueIndex(out, if j < k then j else j - 1);
      }
    }
  }

  /** The keys of one bucket, and of all of them. */
  function BucketKeys(i: nat, items: seq<Rule>): set<Key> {
    set j | 0 <= j < |items| :: Key(i, Name(items[j]))
  }

  function Keys(v: seq<seq<Rule>>): set<Key> {
    set i: nat, j: nat | i < |v| && j < |v[i]| :: Key(i, Name(v[i][j]))
  }

  function Get(v: seq<seq<Rule>>, k: Key): Option<Rule> {
    if k.home < |v| then Find(v[k.home], k.name) else None
  }

  lemma KeysIff(v: seq<seq<Rule>>, k: Key)
    ensures k in Keys(v) <==> Get(v, k).Some?
  {
    if Get(v, k).Some? {
      var j := IndexOf(v[k.home], k.name);
      assert k == Key(k.home, Name(v[k.home][j]));
    }
  }

  /** The map the table holds. */
  function Contents(v: seq<seq<Rule>>): map<Key, Rule> {
    map k | k in Keys(v) :: (KeysIff(v, k); Get(v, k).value)
  }

  function Total(v: seq<seq<Rule>>): nat {
    if v == [] then 0 else Total(v[..|v| - 1]) + |v[|v| - 1]|
  }

  ghost predicate AllUnique(v: seq<seq<Rule>>) {
    forall i :: 0 <= i < |v| ==> Unique(v[i])
  }

  lemma ContentsIff(v: seq<seq<Rule>>, k: Key)
    ensures k in Contents(v) <==> Get(v, k).Some?
    ensures k in Contents(v) ==> Get(v, k) == Some(Contents(v)[k])
  {
    KeysIff(v, k);
  }

  /** bts_listnode_add on a bucket is map update. */
  lemma PutUpdates(v: seq<seq<Rule>>, i: nat, r: Rule)
    requires AllUnique(v) && i < |v|
    ensures Contents(v[i := Put(v[i], r)]) == Contents(v)[Key(i, Name(r)) := r]
    ensures AllUnique(v[i := Put(v[i], r)])
  {
    hide Contents, Put, Find;
    var w := v[i := Put(v[i], r)];
    PutKeepsUnique(v[i], r);
    forall k: Key | true
      ensures k in Contents(w) <==> k in Contents(v) || k == Key(i, Name(r))
      ensures k in Contents(w) ==> Contents(w)[k] == if k == Key(i, Name(r)) then r else Contents(v)[k]
    {
      ContentsIff(v, k);
      ContentsIff(w, k);
      FindAfterPut(v[i], r, k.name);
    }
  }

  /** bts_listnode_delete_by_key on a bucket is map removal. */
  lemma RemoveRemoves(v: seq<seq<Rule>>, i: nat, name: seq<byte>)
    requires AllUnique(v) && i < |v|
    ensures Contents(v[i := Remove(v[i], name)]) == Contents(v) - {Key(i, name)}
    ensures AllUnique(v[i := Remove(v[i], name)])
  {
    hide Contents, Remove, Find;
    var w := v[i := Remove(v[i], name)];
    RemoveKeepsUnique(v[i], name);
    forall k: Key | true
      ensures k in Contents(w) <==> k in Contents(v) && k != Key(i, name)
      ensures k in Contents(w) ==> Contents(w)[k] == Contents(v)[k]
    {
      ContentsIff(v, k);
      ContentsIff(w, k);
      FindAfterRemove(v[i], name, k.name);
    }
  }

  lemma {:induction false} BucketKeyCount(i: nat, items: seq<Rule>)
    requires Unique(items)
    ensures |BucketKeys(i, items)| == |items|
  {
    if items != [] {
      var rest := items[..|items| - 1];
      var last := Key(i, Name(items[|items| - 1]));
      BucketKeyCount(i, rest);
      assert BucketKeys(i, items) == BucketKeys(i, rest) + {last};
      assert last !in BucketKeys(i, rest);
    }
  }

  /** One node per key: the buckets hold as many nodes as the map has entries. */
  lemma {:induction false} OneNodePerKey(v: seq<seq<Rule>>)
    requires AllUnique(v)
    ensures |Contents(v)| == Total(v)
  {
    assert Contents(v).Keys == Keys(v);
    if v != [] {
      var n: nat := |v| - 1;
      var w := v[..n];
      OneNodePerKey(w);
      assert Contents(w).Keys == Keys(w);
      BucketKeyCount(n, v[n]);
      KeysSplit(v);
      assert Keys(w) !! BucketKeys(n, v[n]);
    }
  }

  lemma KeysSplit(v: seq<seq<Rule>>)
    requires v != []
    ensures Keys(v) == Keys(v[..|v| - 1]) + BucketKeys(|v| - 1, v[|v| - 1])
  {
    var n: nat := |v| - 1;
    var w := v[..n];
    forall k | k in Keys(v) ensures k in Keys(w) + BucketKeys(n, v[n]) {
      var i: nat, j: nat :| i < |v| && j < |v[i]| && k == Key(i, Name(v[i][j]));
      if i < n {
        assert k == Key(i, Name(w[i][j]));
      }
    }
    forall k | k in BucketKeys(n, v[n]) ensures k in Keys(v) {
      var j: nat :| j < |v[n]| && k == Key(n, Name(v[n][j]));
    }
    forall k | k in Keys(w) ensures k in Keys(v) {
      var i: nat, j: nat :| i < |w| && j < |w[i]| && k == Key(i, Name(w[i][j]));
      assert k == Key(i, Name(v[i][j]));
    }
  }
}
