/** The list of interfaces of if.c, kept sorted by if_cmp_func. */
module Interfaces {
  import opened Bytes
  import opened Wrappers
  import opened IfName
  import opened LinkList
  import opened Sequences

  type Name = seq<byte>

  /** The comparison the list is created with; only its sign is looked at. */
  const IF_CMP: (Name, Name) -> int := (a: Name, b: Name) => NameOrder(a, b)

  ghost predicate Sorted(names: seq<Name>) {
    forall i, j :: 0 <= i < j < |names| ==> Le(names[i], names[j])
  }

  /** The place found for a value: everything before it is not greater; the item at it is greater. */
  lemma {:induction false} PlaceSplits(items: seq<Name>, val: Name)
    ensures var k := Place(Some(IF_CMP), items, val);
            && (forall i :: 0 <= i < k ==> NameOrder(val, items[i]) >= 0)
            && (k < |items| ==> NameOrder(val, items[k]) < 0)
  {
    if items != [] && NameOrder(val, items[0]) >= 0 {
      PlaceSplits(items[1..], val);
      var k := Place(Some(IF_CMP), items, val);
      forall i | 0 <= i < k ensures NameOrder(val, items[i]) >= 0 {
        assert i > 0 ==> items[i] == items[1..][i - 1];
      }
    }
  }

  /** Sorted insertion keeps the list sorted. */
  lemma InsertKeepsSorted(items: seq<Name>, val: Name)
    requires Sorted(items)
    ensures Sorted(Inserted(items, Place(Some(IF_CMP), items, val), val))
  {
    hide Le, NameOrder;
    var k := Place(Some(IF_CMP), items, val);
    PlaceSplits(items, val);
    var s := Inserted(items, k, val);
    forall i, j | 0 <= i < j < |s| ensures Le(s[i], s[j]) {
      if i < k && j == k {
        LeIsTotalPreorder(val, items[i], val);
      } else if i == k {
        LeIsTotalPreorder(val, items[k], items[j - 1]);
      }
    }
  }

  /** if_create's use of the list: an interface whose name is new goes to its sorted place. */
  method IfCreate(iflist: List<Name>, name: Name)
    requires iflist.Valid() && iflist.cmp == Some(IF_CMP)
    requires Sorted(Items(iflist.nodes)) && Distinct(Items(iflist.nodes))
    modifies iflist, iflist.nodes
    ensures iflist.Valid() && Sorted(Items(iflist.nodes)) && Distinct(Items(iflist.nodes))
    ensures multiset(Items(iflist.nodes))
            == old(multiset(Items(iflist.nodes))) + if name in old(Items(iflist.nodes)) then multiset{}
                else multiset{name}
  {
    hide IF_CMP;
    ghost var items := Items(iflist.nodes);
    var known := Known(iflist, name);
    if !known {
      InsertKeepsSorted(items, name);
      InsertKeepsUnique(items, Place(iflist.cmp, items, name), name);
      iflist.AddSort(name);
    }
  }

  /** The sorted list is in the documented order when no name has a character below the digits. */
  lemma SortedAsDocumented(names: seq<Name>, i: nat, j: nat)
    requires Sorted(names) && i < j < |names| && Symbols(names[i]) != Symbols(names[j])
    requires forall k, c :: 0 <= k < |names| && c in names[k] ==> c >= 48
    ensures DocLess(Symbols(names[i]), Symbols(names[j]))
  {
    SymbolsWf(names[i]);
    SymbolsWf(names[j]);
    PlainNamesNeverClash(names[i], names[j]);
    DocumentedIffNoClash(Symbols(names[i]), Symbols(names[j]), false);
  }

  /** Of two names on the list with different numbers after the same start, the one with the smaller number comes
      first: fewer digits, or the smaller digit at the first difference. */
  lemma NumbersInOrder(names: seq<Name>, i: nat, j: nat, prefix: Name, a: Name, u: Name, b: Name, v: Name)
    requires Sorted(names) && i < |names| && j < |names|
    requires names[i] == prefix + (a + u) && names[j] == prefix + (b + v)
    requires prefix == [] || !IsDigit(prefix[|prefix| - 1])
    requires Numeral(a) && Numeral(b) && FitsLong(a) && FitsLong(b) && a != b && NoDigitFirst(u) && NoDigitFirst(v)
    ensures i < j <==> |a| < |b| || (|a| == |b| && StrCmp(a, b) < 0)
  {
    hide Le, Symbols, NameOrder, FitsLong, StrCmp, Sorted, Numeral, NoDigitFirst;
    NumbersBothWays(prefix, a, u, b, v);
    SortedAt(names, i, j);
    SortedAt(names, j, i);
    LeIsStrict(names[i], names[j]);
    LeIsStrict(names[j], names[i]);
  }

  lemma SortedAt(names: seq<Name>, i: nat, j: nat)
    requires Sorted(names) && i < |names| && j < |names|
    ensures i < j ==> Le(names[i], names[j])
  {
  }

  lemma NumbersBothWays(prefix: Name, a: Name, u: Name, b: Name, v: Name)
    requires prefix == [] || !IsDigit(prefix[|prefix| - 1])
    requires Numeral(a) && Numeral(b) && FitsLong(a) && FitsLong(b) && a != b && NoDigitFirst(u) && NoDigitFirst(v)
    ensures var x, y := prefix + (a + u), prefix + (b + v);
            && NameOrder(x, y) == -NameOrder(y, x) && x != y
            && (NameOrder(x, y) < 0 <==> |a| < |b| || (|a| == |b| && StrCmp(a, b) < 0))
            && (NameOrder(x, y) > 0 <==> |b| < |a| || (|a| == |b| && StrCmp(a, b) > 0))
            && NameOrder(x, y) != 0
  {
    hide Symbols, NameOrder, FitsLong, StrCmp, Numeral, NoDigitFirst;
    NumbersDecide(prefix, a, u, b, v);
    NumbersDecide(prefix, b, v, a, u);
    StrCmpOfDifferent(a, b);
    if |a| == |b| {
      StrCmpSwaps(a, b);
    }
  }

  lemma LeIsStrict(a: Name, b: Name)
    ensures Le(a, b) ==> NameOrder(a, b) <= 0
  {
    if Symbols(a) == Symbols(b) {
      TieRule(a, b, false);
    }
  }

  lemma {:induction false} StrCmpSwaps(a: Name, b: Name)
    requires |a| == |b|
    ensures StrCmp(a, b) == -StrCmp(b, a)
  {
    if a != [] && a[0] == b[0] {
      StrCmpSwaps(a[1..], b[1..]);
    }
  }

  lemma InsertKeepsUnique(items: seq<Name>, k: nat, name: Name)
    requires Distinct(items) && name !in items && k <= |items|
    ensures Distinct(Inserted(items, k, name))
    ensures multiset(Inserted(items, k, name)) == multiset(items) + multiset{name}
  {
    assert items == items[..k] + items[k..];
  }

  /** if_lookup_by_name, found or not */
  method Known(iflist: List<Name>, name: Name) returns (found: bool)
    requires iflist.Valid()
    ensures found <==> name in Items(iflist.nodes)
  {
    ghost var items := Items(iflist.nodes);
    var n := iflist.head;
    ghost var k: nat := 0;
    while n != null
      invariant k <= |items| && n == At(iflist.nodes, k)
      invariant forall i :: 0 <= i < k ==> items[i] != name
      decreases |items| - k
    {
      if n.data == name {
        assert items[k] == name;
        return true;
      }
      n := n.next;
      k := k + 1;
    }
    return false;
  }
}
