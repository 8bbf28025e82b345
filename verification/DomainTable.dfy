/** bts_hashtable.c and its client dmr.c: a fixed array of buckets holding rules by host name. */
module DomainTable {
  import opened Bytes
  import opened Wrappers
  import opened DomainRule
  import opened RuleMap
  import opened BtsLinkList
  import opened Sequences

  datatype Berr = E_SUCCESS | E_PARAM | E_INIT | E_FOUND

  /** Every rule sits in the bucket its hashed octets select. */
  ghost predicate WellPlaced(hash: seq<byte> -> nat, v: seq<seq<Rule>>) {
    forall i, r :: 0 <= i < |v| && r in v[i] ==> hash(Hashed(r)) % |v| == i
  }

  lemma WellPlacedPut(hash: seq<byte> -> nat, v: seq<seq<Rule>>, i: nat, r: Rule)
    requires WellPlaced(hash, v) && i < |v| && i == hash(Hashed(r)) % |v|
    ensures WellPlaced(hash, v[i := Put(v[i], r)])
  {
  }

  lemma WellPlacedRemove(hash: seq<byte> -> nat, v: seq<seq<Rule>>, i: nat, name: seq<byte>)
    requires WellPlaced(hash, v) && i < |v|
    ensures WellPlaced(hash, v[i := Remove(v[i], name)])
  {
    forall r | r in Remove(v[i], name) ensures r in v[i] {}
  }

  /** All rules, bucket by bucket. */
  function Flatten(v: seq<seq<Rule>>): seq<Rule> {
    if v == [] then [] else Flatten(v[..|v| - 1]) + v[|v| - 1]
  }

  /** The first i buckets emptied. */
  ghost function Emptied(v: seq<seq<Rule>>, i: nat): (w: seq<seq<Rule>>)
    requires i <= |v|
    ensures |w| == |v|
  {
    seq(i, _ => []) + v[i..]
  }

  lemma EmptiedStep(v: seq<seq<Rule>>, i: nat)
    requires i < |v|
    ensures Emptied(v, i)[i] == v[i] && Emptied(v, i)[i := []] == Emptied(v, i + 1)
    ensures Flatten(v[..i + 1]) == Flatten(v[..i]) + v[i]
  {
    assert v[..i + 1][..i] == v[..i];
  }

  lemma EmptiedEnds(v: seq<seq<Rule>>)
    ensures Emptied(v, 0) == v && Flatten(v[..0]) == [] && v[..|v|] == v
    ensures Contents(Emptied(v, |v|)) == map[] && Total(Emptied(v, |v|)) == 0
  {
    EmptyBuckets(|v|);
    assert Emptied(v, |v|) == seq(|v|, _ => []);
  }

  class Table {
    const hash: seq<byte> -> nat
    const buckets: seq<BtsList>
    ghost var view: seq<seq<Rule>>     // the rules of each bucket
    ghost var repr: set<object>

    ghost predicate Valid()
      reads this, repr
    {
      && this in repr
      && |view| == |buckets|
      && (forall i :: 0 <= i < |buckets| ==> BucketOk(i))
      && (forall i, j :: 0 <= i < |buckets| && 0 <= j < |buckets| && i != j ==> Separate(i, j))
      && WellPlaced(hash, view)
    }

    ghost predicate BucketOk(i: nat)
      requires i < |buckets| == |view|
      reads this, repr
    {
      && buckets[i] in repr && buckets[i].repr <= repr && this !in buckets[i].repr
      && buckets[i] in buckets[i].repr && buckets[i].Valid() && buckets[i].items == view[i]
    }

    ghost predicate Separate(i: nat, j: nat)
      requires i < |buckets| && j < |buckets|
      reads this, repr
    {
      buckets[i] in repr && buckets[j] in repr && buckets[i].repr !! buckets[j].repr
    }

    function Home(r: Rule): (i: nat)
      requires buckets != []
      ensures i < |buckets|
    {
      hash(Hashed(r)) % |buckets|
    }

    /** bts_hashtable_lookup */
    method Lookup(key: Option<Rule>) returns (data: Option<Rule>)
      requires Valid()
      ensures data == if key.None? || buckets == [] then None
                      else Get(view, Key(Home(key.value), Name(key.value)))
    {
      if key.None? {
        return None;
      }
      if |buckets| == 0 {
        return None;
      }
      var bucket := buckets[Home(key.value)];
      assert BucketOk(Home(key.value));
      var node := bucket.LookupByKey(key.value);
      return if node != null then node.data else None;
    }

    method AddAt(i: nat, val: Rule)
      requires Valid() && i < |buckets| && i == Home(val)
      modifies repr
      ensures Valid() && fresh(repr - old(repr))
      ensures view == old(view)[i := Put(old(view)[i], val)]
    {
      hide BtsList.Valid, WellPlaced, Put;
      assert BucketOk(i);
      assert forall j :: 0 <= j < |buckets| ==> BucketOk(j);
      assert forall j :: 0 <= j < |buckets| && j != i ==> Separate(i, j);
      WellPlacedPut(hash, view, i, val);
      buckets[i].Add(val);
      repr := repr + buckets[i].repr;
      view := view[i := buckets[i].items];
      forall j | 0 <= j < |buckets| ensures BucketOk(j) {
        assert j != i ==> old(BucketOk(j)) && old(Separate(i, j));
      }
      forall j, k | 0 <= j < |buckets| && 0 <= k < |buckets| && j != k ensures Separate(j, k) {
        assert old(Separate(j, k)) && old(BucketOk(j)) && old(BucketOk(k));
        assert i != j ==> old(Separate(i, j));
        assert i != k ==> old(Separate(i, k));
      }
    }

    /** bts_hashtable_add */
    method Add(data: Option<Rule>) returns (err: Berr)
      requires Valid()
      modifies repr
      ensures Valid() && fresh(repr - old(repr))
      ensures err == if data.None? then E_PARAM else if buckets == [] then E_INIT else E_SUCCESS
      ensures err != E_SUCCESS ==> view == old(view)
      ensures err == E_SUCCESS ==>
                var i := Home(data.value);
                view == old(view)[i := Put(old(view)[i], data.value)]
    {
      if data.None? {
        return E_PARAM;
      }
      if |buckets| == 0 {
        return E_INIT;
      }
      AddAt(Home(data.value), data.value);
      return E_SUCCESS;
    }

    lemma ViewUnique()
      requires Valid()
      ensures AllUnique(view)
    {
      forall i | 0 <= i < |view| ensures Unique(view[i]) {
        assert BucketOk(i);
      }
    }

    method DelAt(i: nat, key: Rule)
      requires Valid() && i < |buckets|
      modifies repr
      ensures Valid() && repr == old(repr)
      ensures view == old(view)[i := Remove(old(view)[i], Name(key))]
      ensures buckets[i].nodes == Dropped(old(buckets[i].nodes), IndexOf(old(view)[i], Name(key)))
    {
      hide BtsList.Valid, WellPlaced, Remove, Dropped, IndexOf;
      assert BucketOk(i);
      assert forall j :: 0 <= j < |buckets| ==> BucketOk(j);
      assert forall j :: 0 <= j < |buckets| && j != i ==> Separate(i, j);
      WellPlacedRemove(hash, view, i, Name(key));
      buckets[i].DeleteByKey(key);
      view := view[i := buckets[i].items];
      forall j | 0 <= j < |buckets| ensures BucketOk(j) {
        assert j != i ==> old(BucketOk(j)) && old(Separate(i, j));
      }
      forall j, k | 0 <= j < |buckets| && 0 <= k < |buckets| && j != k ensures Separate(j, k) {
        assert old(Separate(j, k)) && old(BucketOk(j)) && old(BucketOk(k));
        assert i != j ==> old(Separate(i, j));
        assert i != k ==> old(Separate(i, k));
      }
    }

    /** bts_hashtable_del */
    method Del(data: Option<Rule>) returns (err: Berr)
      requires Valid()
      modifies repr
      ensures Valid() && repr == old(repr)
      ensures err == if data.None? then E_PARAM else if buckets == [] then E_INIT else E_SUCCESS
      ensures err != E_SUCCESS ==> view == old(view)
      ensures err == E_SUCCESS ==>
                var i, name := Home(data.value), Name(data.value);
                && view == old(view)[i := Remove(old(view)[i], name)]
                && buckets[i].nodes == Dropped(old(buckets[i].nodes), IndexOf(old(view)[i], name))
    {
      if data.None? {
        return E_PARAM;
      }
      if |buckets| == 0 {
        return E_INIT;
      }
      DelAt(Home(data.value), data.value);
      return E_SUCCESS;
    }

    /** Where the iteration over bucket i starts. */
    lemma FirstNode(i: nat)
      requires Valid() && i < |buckets|
      ensures var b := buckets[i];
              && |view| == |buckets| && |b.nodes| == |view[i]| && b in repr && b.head in repr
              && b.head.next == b.At(0)
              && (view[i] == [] <==> b.At(0) == b.head)
              && (view[i] != [] ==>
                    && b.At(0) == b.nodes[0] && b.nodes[0].data == Some(view[i][0])
                    && b.nodes[0].next == (b.nodes + [b.head])[1]
                    && Home(view[i][0]) == i && IndexOf(view[i], Name(view[i][0])) == 0)
    {
      assert BucketOk(i);
      buckets[i].NextAt(0);
    }

    /** dmr_clear_func on the first rule of bucket i. */
    method ClearFunc(data: Option<Rule>, ghost i: nat)
      requires Valid() && i < |buckets| && view[i] != [] && data == Some(view[i][0])
      modifies repr
      ensures Valid() && repr == old(repr)
      ensures view == old(view)[i := old(view)[i][1..]]
      ensures old(buckets[i].nodes) != [] && buckets[i].nodes == old(buckets[i].nodes)[1..]
    {
      hide Table.Valid, BtsList.Valid, IndexOf;
      FirstNode(i);
      var _ := Del(data);
      assert old(view[i])[..0] + old(view[i])[1..] == old(view[i])[1..];
      assert old(buckets[i].nodes)[..0] + old(buckets[i].nodes)[1..] == old(buckets[i].nodes)[1..];
    }

    /** bts_list_all_element_lo on bucket i with dmr_clear_func, which deletes the rule it is called with. The
        successor is read before the call. */
    method ClearBucket(i: nat) returns (visited: seq<Rule>)
      requires Valid() && i < |buckets|
      modifies repr
      ensures Valid() && repr == old(repr)
      ensures view == old(view)[i := []]
      ensures visited == old(view)[i]
    {
      hide Table.Valid, BtsList.Valid, IndexOf;
      var bucket := buckets[i];
      FirstNode(i);
      ghost var all := view[i];
      visited := [];
      var pos := bucket.head.next;
      var next := pos.next;
      while pos != bucket.head
        invariant Valid() && repr == old(repr)
        invariant |visited| <= |all| && visited == all[..|visited|]
        invariant view == old(view)[i := all[|visited|..]]
        invariant pos == bucket.At(0) && next == pos.next
        decreases |view[i]|
      {
        FirstNode(i);
        ghost var nodes := bucket.nodes;
        var data := pos.data;
        if data.Some? {
          visited := visited + [data.value];
          ClearFunc(data, i);
        }
        assert all[|visited| - 1..][1..] == all[|visited|..];
        pos := next;
        next := pos.next;
      }
      FirstNode(i);
    }

    lemma OneViewEach()
      requires Valid()
      ensures |view| == |buckets|
    {
    }

    /** dmr_clear: bts_hashtable_iter with dmr_clear_func calls it once with every rule and empties the table. */
    method Clear() returns (visited: seq<Rule>)
      requires Valid()
      modifies repr
      ensures Valid() && repr == old(repr)
      ensures visited == Flatten(old(view))
      ensures Contents(view) == map[] && Total(view) == 0
    {
      hide Table.Valid, Contents, Total, Flatten, Emptied;
      visited := [];
      ghost var v0 := view;
      OneViewEach();
      EmptiedEnds(v0);
      for i := 0 to |buckets|
        invariant Valid() && repr == old(repr) && |v0| == |buckets|
        invariant view == Emptied(v0, i)
        invariant visited == Flatten(v0[..i])
      {
        EmptiedStep(v0, i);
        var part := ClearBucket(i);
        visited := visited + part;
      }
    }

    /** dmr_get: a rule found by host name. */
    method DmrGet(key: seq<byte>) returns (rule: Option<Rule>)
      requires Valid() && 0 !in key && |key| < MAX_HOST_LEN
      ensures rule == if buckets == [] then None else Get(view, Key(Home(KeyOf(key)), key))
      ensures rule.Some? ==> Name(rule.value) == key && Home(rule.value) == Home(KeyOf(key))
    {
      rule := Lookup(Some(KeyOf(key)));
      if rule.Some? {
        assert rule.value in view[Home(KeyOf(key))];
      }
    }

    /** dmr_add is map update at the rule's bucket and name. */
    method DmrAdd(rule: Rule) returns (err: Berr)
      requires Valid()
      modifies repr
      ensures Valid() && fresh(repr - old(repr))
      ensures err == if buckets == [] then E_INIT else E_SUCCESS
      ensures Contents(view) == if buckets == [] then old(Contents(view))
                                else old(Contents(view))[Key(Home(rule), Name(rule)) := rule]
    {
      hide BtsList.Valid, WellPlaced, Contents, Put;
      ViewUnique();
      if |buckets| > 0 {
        PutUpdates(view, Home(rule), rule);
      }
      err := Add(Some(rule));
    }

    /** dmr_del is map removal, and reports a host that is not there. */
    method DmrDel(host: seq<byte>) returns (err: Berr)
      requires Valid() && 0 !in host && |host| < MAX_HOST_LEN
      modifies repr
      ensures Valid() && repr == old(repr)
      ensures buckets == [] ==> err == E_FOUND && view == old(view)
      ensures buckets != [] ==>
                var k := Key(Home(KeyOf(host)), host);
                && err == (if k in old(Contents(view)) then E_SUCCESS else E_FOUND)
                && Contents(view) == old(Contents(view)) - {k}
    {
      hide BtsList.Valid, WellPlaced, Contents, Remove, Find;
      ViewUnique();
      if |buckets| > 0 {
        var k := Key(Home(KeyOf(host)), host);
        ContentsIff(view, k);
        RemoveRemoves(view, k.home, host);
      }
      var entry := DmrGet(host);
      if entry.None? {
        return E_FOUND;
      }
      err := Del(entry);
    }

    /** dmr_init with this many buckets. */
    constructor (hash: seq<byte> -> nat, number: nat)
      ensures Valid() && fresh(repr) && this.hash == hash && |buckets| == number
      ensures Contents(view) == map[] && Total(view) == 0
    {
      hide Contents, Total;
      this.hash := hash;
      var lists: seq<BtsList> := [];
      ghost var all: set<object> := {};
      for i := 0 to number
        invariant |lists| == i && fresh(all)
        invariant forall k :: 0 <= k < i ==>
                    && lists[k].Valid() && lists[k].items == []
                    && lists[k].repr <= all && lists[k] in lists[k].repr
        invariant forall j, k :: 0 <= j < i && 0 <= k < i && j != k ==> lists[j].repr !! lists[k].repr
      {
        var l := new BtsList();
        lists := lists + [l];
        all := all + l.repr;
      }
      buckets := lists;
      view := seq(number, _ => []);
      repr := all + {this};
      new;
      EmptyBuckets(number);
      forall k | 0 <= k < |buckets| ensures BucketOk(k) {}
    }
  }

  lemma {:induction false} EmptyBuckets(n: nat)
    ensures var v: seq<seq<Rule>> := seq(n, _ => []);
            Total(v) == 0 && Contents(v) == map[]
  {
    var v: seq<seq<Rule>> := seq(n, _ => []);
    if n > 0 {
      var w: seq<seq<Rule>> := seq(n - 1, _ => []);
      EmptyBuckets(n - 1);
      assert v[..n - 1] == w;
    }
    assert Keys(v) == {};
  }

  /** After dmr_add of the rule to these buckets, dmr_get of its name returns it. */
  predicate Found(hash: seq<byte> -> nat, v: seq<seq<Rule>>, r: Rule)
    requires v != []
  {
    var i := hash(Hashed(r)) % |v|;
    Get(v[i := Put(v[i], r)], Key(hash(Hashed(KeyOf(Name(r)))) % |v|, Name(r))) == Some(r)
  }

  /** It does exactly when the octets counted by host_len select the bucket that the name itself selects. */
  lemma FoundIffSameBucket(hash: seq<byte> -> nat, v: seq<seq<Rule>>, r: Rule)
    requires v != [] && AllUnique(v) && WellPlaced(hash, v)
    ensures Found(hash, v, r) <==> hash(Hashed(r)) % |v| == hash(Name(r)) % |v|
  {
    hide Put, Find, WellPlaced;
    var i, j := hash(Hashed(r)) % |v|, hash(Name(r)) % |v|;
    if i == j {
      FindAfterPut(v[i], r, Name(r));
    } else {
      OnlyInItsBucket(hash, v, r, j);
      FindIff(v[j], r);
    }
  }

  lemma OnlyInItsBucket(hash: seq<byte> -> nat, v: seq<seq<Rule>>, r: Rule, j: nat)
    requires WellPlaced(hash, v) && j < |v| && j != hash(Hashed(r)) % |v|
    ensures r !in v[j]
  {
  }

  /** Whatever the hash and the buckets are, it does exactly when those octets are the name. */
  lemma FoundByEveryHashIff(r: Rule)
    ensures (forall hash: seq<byte> -> nat, v: seq<seq<Rule>> ::
               v != [] && AllUnique(v) && WellPlaced(hash, v) ==> Found(hash, v, r))
            <==> Hashed(r) == Name(r)
  {
    hide Found, AllUnique, WellPlaced;
    if Hashed(r) == Name(r) {
      forall hash: seq<byte> -> nat, v: seq<seq<Rule>> | v != [] && AllUnique(v) && WellPlaced(hash, v)
        ensures Found(hash, v, r)
      {
        FoundIffSameBucket(hash, v, r);
      }
    } else {
      var name := Name(r);
      var hash: seq<byte> -> nat := (s: seq<byte>) => if s == name then 1 else 0;
      var v: seq<seq<Rule>> := [[], []];
      NoRules(hash);
      FoundIffSameBucket(hash, v, r);
      assert hash(Hashed(r)) % 2 == 0 && hash(Name(r)) % 2 == 1;
      assert !Found(hash, v, r);
    }
  }

  lemma NoRules(hash: seq<byte> -> nat)
    ensures AllUnique([[], []]) && WellPlaced(hash, [[], []])
  {
  }

  /** The length stored by the command that adds rules is the length of the name, and then it does. */
  lemma {:induction false} FullLengthHashesTheName(s: seq<byte>)
    requires 0 in s
    ensures s[..|CStr(s)|] == CStr(s)
  {
    if s[0] != 0 {
      FullLengthHashesTheName(s[1..]);
      assert CStr(s)[1..] == CStr(s[1..]);
      assert s[..|CStr(s)|] == [s[0]] + s[1..][..|CStr(s)| - 1];
    }
  }

  /** With that length in every rule, two rules of one host are the same node. */
  lemma OneNodePerHost(hash: seq<byte> -> nat, v: seq<seq<Rule>>, i: nat, a: nat, j: nat, b: nat)
    requires AllUnique(v) && WellPlaced(hash, v)
    requires forall k, r :: 0 <= k < |v| && r in v[k] ==> r.hostLen == |Name(r)|
    requires i < |v| && a < |v[i]| && j < |v| && b < |v[j]|
    requires Name(v[i][a]) == Name(v[j][b])
    ensures i == j && a == b
  {
    FullLengthHashesTheName(v[i][a].host);
    FullLengthHashesTheName(v[j][b].host);
    assert v[i][a] in v[i] && v[j][b] in v[j];
    assert Hashed(v[i][a]) == Name(v[i][a]) && Hashed(v[j][b]) == Name(v[j][b]);
    assert i == j;
    UniqueIndex(v[i], a);
    UniqueIndex(v[j], b);
  }

  /** A stored length of 0 for host "a", hashed by length into two buckets: added, and not found. */
  lemma AddedButNotFound()
    ensures var r: Rule := KeyOf([97]).(hostLen := 0);
            var hash := (s: seq<byte>) => |s|;
            Name(r) == [97] && Get([[r], []], Key(hash(Hashed(KeyOf(Name(r)))) % 2, [97])).None?
            && WellPlaced(hash, [[r], []]) && !Found(hash, [[], []], r)
  {
    var r: Rule := KeyOf([97]).(hostLen := 0);
    var none: seq<Rule> := [];
    assert Put(none, r) == none + [r] == [r];
    assert [none, none][0 := [r]] == [[r], none];
  }
}
