/** Recursive key sorting of JSON values: one form for every value that differs only
    in the order of its objects' keys. */
module CanonicalJson {
  import opened Text
  import opened Json
  import opened Sorting

  type Entry = (string, Value)

  predicate KeyLe(a: Entry, b: Entry) {
    Le(a.0, b.0)
  }

  function SortKeys(v: Value): Value
    decreases v
  {
    match v
    case Object(entries) =>
      var sorted := Sort(entries, KeyLe);
      SortPermutes(entries, KeyLe);
      Object(seq(|sorted|, i requires 0 <= i < |sorted| =>
                   assert sorted[i] in multiset(sorted);
                   (sorted[i].0, SortKeys(sorted[i].1))))
    case Array(items) => Array(seq(|items|, i requires 0 <= i < |items| => SortKeys(items[i])))
    case _ => v
  }

  // ---- What it should produce ----------------------------------------------

  /** Every object names each of its keys once, at every depth. */
  predicate WellFormed(v: Value)
    decreases v
  {
    match v
    case Object(entries) =>
      UniqueKeys(entries) && forall i :: 0 <= i < |entries| ==> WellFormed(entries[i].1)
    case Array(items) => forall i :: 0 <= i < |items| ==> WellFormed(items[i])
    case _ => true
  }

  predicate KeysSorted(v: Value)
    decreases v
  {
    match v
    case Object(entries) =>
      Sorted(entries, KeyLe) && forall i :: 0 <= i < |entries| ==> KeysSorted(entries[i].1)
    case Array(items) => forall i :: 0 <= i < |items| ==> KeysSorted(items[i])
    case _ => true
  }

  predicate HasKey(entries: seq<Entry>, key: string) {
    exists i :: 0 <= i < |entries| && entries[i].0 == key
  }

  predicate SameKeys(a: seq<Entry>, b: seq<Entry>) {
    && (forall i :: 0 <= i < |a| ==> HasKey(b, a[i].0))
    && (forall j :: 0 <= j < |b| ==> HasKey(a, b[j].0))
  }

  /** Equal as unordered trees: objects by key, arrays by position. */
  predicate SameTree(a: Value, b: Value)
    decreases a
  {
    match a
    case Object(entries) =>
      && b.Object? && SameKeys(entries, b.entries)
      && forall i, j :: 0 <= i < |entries| && 0 <= j < |b.entries| && entries[i].0 == b.entries[j].0 ==>
           SameTree(entries[i].1, b.entries[j].1)
    case Array(items) =>
      b.Array? && |items| == |b.items| && forall i :: 0 <= i < |items| ==> SameTree(items[i], b.items[i])
    case _ => a == b
  }

  // ---- Sorting one object --------------------------------------------------

  function Keys(entries: seq<Entry>): seq<string> {
    seq(|entries|, i requires 0 <= i < |entries| => entries[i].0)
  }

  lemma KeyLeIsOrder()
    ensures IsOrder(KeyLe)
  {
    LeIsOrder();
  }

  /** Sorting keeps an object's entries, and its keys are then unique and sorted. */
  lemma {:induction false} SortedEntries(entries: seq<Entry>)
    requires UniqueKeys(entries)
    ensures var sorted := Sort(entries, KeyLe);
            && Sorted(sorted, KeyLe) && UniqueKeys(sorted) && |sorted| == |entries|
            && (forall e :: e in sorted <==> e in entries)
            && Sorted(Keys(sorted), Le)
  {
    var sorted := Sort(entries, KeyLe);
    KeyLeIsOrder();
    SortSorts(entries, KeyLe);
    SortPermutes(entries, KeyLe);
    SortDistinct(entries, KeyLe);
    forall e
      ensures e in sorted <==> e in entries
    {
      assert e in multiset(sorted) <==> e in multiset(entries);
    }
    forall i, j | 0 <= i < j < |sorted|
      ensures sorted[i].0 != sorted[j].0
    {
      assert sorted[i] in entries && sorted[j] in entries && sorted[i] != sorted[j];
    }
  }

  lemma DistinctKeys(entries: seq<Entry>)
    requires UniqueKeys(entries)
    ensures var keys := Keys(entries); forall i, j :: 0 <= i < j < |keys| ==> keys[i] != keys[j]
    ensures forall key :: key in Keys(entries) <==> HasKey(entries, key)
  {
    forall key | HasKey(entries, key)
      ensures key in Keys(entries)
    {
      var i :| 0 <= i < |entries| && entries[i].0 == key;
      assert Keys(entries)[i] == key;
    }
  }

  /** Distinct strings with the same members sort to one sequence. */
  lemma AscendingIsUnique(a: seq<string>, b: seq<string>)
    requires Sorted(a, Le) && Sorted(b, Le)
    requires forall i, j :: 0 <= i < j < |a| ==> a[i] != a[j]
    requires forall i, j :: 0 <= i < j < |b| ==> b[i] != b[j]
    requires forall x :: x in a <==> x in b
    ensures a == b
  {
    SameMembersSameCounts(a, b);
    forall x, y | x in a && y in a && Le(x, y) && Le(y, x)
      ensures x == y
    {
      LeAntisymmetric(x, y);
    }
    LeIsOrder();
    SortedIsUnique(a, b, Le);
  }

  /** Objects with the same keys line up once sorted. */
  lemma {:induction false} SortedKeysAgree(a: seq<Entry>, b: seq<Entry>)
    requires UniqueKeys(a) && UniqueKeys(b) && SameKeys(a, b)
    ensures Keys(Sort(a, KeyLe)) == Keys(Sort(b, KeyLe))
  {
    var sa, sb := Sort(a, KeyLe), Sort(b, KeyLe);
    SortedEntries(a);
    SortedEntries(b);
    SortKeepsKeys(a);
    SortKeepsKeys(b);
    DistinctKeys(sa);
    DistinctKeys(sb);
    AscendingIsUnique(Keys(sa), Keys(sb));
  }

  lemma {:induction false} SortKeepsKeys(entries: seq<Entry>)
    requires UniqueKeys(entries)
    ensures forall key :: HasKey(Sort(entries, KeyLe), key) <==> HasKey(entries, key)
  {
    var sorted := Sort(entries, KeyLe);
    SortedEntries(entries);
    forall key
      ensures HasKey(sorted, key) <==> HasKey(entries, key)
    {
      if i :| 0 <= i < |entries| && entries[i].0 == key {
        assert entries[i] in sorted;
      }
      if i :| 0 <= i < |sorted| && sorted[i].0 == key {
        assert sorted[i] in entries;
      }
    }
  }

  /** An entry with a key is the entry of that key. */
  lemma KeyFindsEntry(entries: seq<Entry>, i: nat, e: Entry)
    requires UniqueKeys(entries) && i < |entries| && e in entries && entries[i].0 == e.0
    ensures entries[i] == e
  {
    var j :| 0 <= j < |entries| && entries[j] == e;
    assert i == j;
  }

  // ---- The canonical form --------------------------------------------------

  /** The result is sorted at every depth, is still well formed, and is the same tree. */
  lemma {:induction false} SortKeysCanonical(v: Value)
    requires WellFormed(v)
    ensures KeysSorted(SortKeys(v)) && WellFormed(SortKeys(v)) && SameTree(v, SortKeys(v))
    decreases v
  {
    match v
    case Object(entries) =>
      var sorted := Sort(entries, KeyLe);
      SortedEntries(entries);
      forall i | 0 <= i < |sorted|
        ensures IsCanonical(sorted[i].1, SortKeys(sorted[i].1))
      {
        assert sorted[i] in entries;
        SortKeysCanonical(sorted[i].1);
      }
      ObjectCanonical(entries, sorted, SortKeys(v).entries);
    case Array(items) =>
      forall i | 0 <= i < |items|
        ensures IsCanonical(items[i], SortKeys(items[i]))
      {
        SortKeysCanonical(items[i]);
      }
    case _ =>
  }

  predicate IsCanonical(v: Value, r: Value) {
    KeysSorted(r) && WellFormed(r) && SameTree(v, r)
  }

  /** An object whose sorted entries are each made canonical is canonical. */
  lemma {:induction false} ObjectCanonical(entries: seq<Entry>, sorted: seq<Entry>, out: seq<Entry>)
    requires UniqueKeys(entries) && sorted == Sort(entries, KeyLe) && |out| == |sorted|
    requires forall i :: 0 <= i < |out| ==> out[i].0 == sorted[i].0 && IsCanonical(sorted[i].1, out[i].1)
    ensures IsCanonical(Object(entries), Object(out))
  {
    SortedEntries(entries);
    SortKeepsKeys(entries);
    SameKeysOnceMapped(entries, sorted, out);
    forall i, j | 0 <= i < |entries| && 0 <= j < |out| && entries[i].0 == out[j].0
      ensures SameTree(entries[i].1, out[j].1)
    {
      assert sorted[j] in entries;
      KeyFindsEntry(entries, i, sorted[j]);
    }
  }

  lemma SameKeysOnceMapped(entries: seq<Entry>, sorted: seq<Entry>, out: seq<Entry>)
    requires forall key :: HasKey(sorted, key) <==> HasKey(entries, key)
    requires |out| == |sorted| && forall i :: 0 <= i < |out| ==> out[i].0 == sorted[i].0
    ensures SameKeys(entries, out)
  {
    forall i | 0 <= i < |entries|
      ensures HasKey(out, entries[i].0)
    {
      assert HasKey(entries, entries[i].0);
      var j :| 0 <= j < |sorted| && sorted[j].0 == entries[i].0;
      assert out[j].0 == entries[i].0;
    }
    forall j | 0 <= j < |out|
      ensures HasKey(entries, out[j].0)
    {
      assert HasKey(sorted, sorted[j].0);
    }
  }

  /** Values that differ only in key order have one canonical form. */
  lemma {:induction false} SameTreeSortsAlike(a: Value, b: Value)
    requires WellFormed(a) && WellFormed(b) && SameTree(a, b)
    ensures SortKeys(a) == SortKeys(b)
    decreases a
  {
    match a
    case Object(entries) =>
      var sa, sb := Sort(entries, KeyLe), Sort(b.entries, KeyLe);
      SortedEntries(entries);
      SortedEntries(b.entries);
      SortedKeysAgree(entries, b.entries);
      assert |Keys(sa)| == |Keys(sb)|;
      forall i | 0 <= i < |sa|
        ensures SortKeys(a).entries[i] == SortKeys(b).entries[i]
      {
        assert Keys(sa)[i] == Keys(sb)[i];
        assert sa[i] in entries && sb[i] in b.entries;
        SameTreeSortsAlike(sa[i].1, sb[i].1);
      }
      assert SortKeys(a).entries == SortKeys(b).entries;
    case Array(items) =>
      forall i | 0 <= i < |items|
        ensures SortKeys(a).items[i] == SortKeys(b).items[i]
      {
        SameTreeSortsAlike(items[i], b.items[i]);
      }
      assert SortKeys(a).items == SortKeys(b).items;
    case _ =>
  }

  /** And only those: a shared canonical form is a shared tree. */
  lemma {:induction false} SortsAlikeSameTree(a: Value, b: Value)
    requires WellFormed(a) && WellFormed(b) && SortKeys(a) == SortKeys(b)
    ensures SameTree(a, b)
    decreases a
  {
    match a
    case Object(entries) =>
      SortsAlikeSameKeys(a, b);
      forall i, j | 0 <= i < |entries| && 0 <= j < |b.entries| && entries[i].0 == b.entries[j].0
        ensures SameTree(entries[i].1, b.entries[j].1)
      {
        SortsAlikeByKey(a, b, i, j);
        SortsAlikeSameTree(entries[i].1, b.entries[j].1);
      }
    case Array(items) =>
      forall i | 0 <= i < |items|
        ensures SameTree(items[i], b.items[i])
      {
        assert SortKeys(a).items[i] == SortKeys(b).items[i];
        SortsAlikeSameTree(items[i], b.items[i]);
      }
    case _ =>
  }

  lemma {:induction false} SortsAlikeSameKeys(a: Value, b: Value)
    requires a.Object? && WellFormed(a) && WellFormed(b) && SortKeys(a) == SortKeys(b)
    ensures b.Object? && SameKeys(a.entries, b.entries)
  {
    SortKeepsKeys(a.entries);
    SortKeepsKeys(b.entries);
    SameKeysThroughSorted(a.entries, b.entries, Sort(a.entries, KeyLe), Sort(b.entries, KeyLe), SortKeys(a).entries);
  }

  /** Values under one key of two objects that sort alike sort alike. */
  lemma {:induction false} SortsAlikeByKey(a: Value, b: Value, i: nat, j: nat)
    requires a.Object? && b.Object? && WellFormed(a) && WellFormed(b) && SortKeys(a) == SortKeys(b)
    requires i < |a.entries| && j < |b.entries| && a.entries[i].0 == b.entries[j].0
    ensures SortKeys(a.entries[i].1) == SortKeys(b.entries[j].1)
  {
    var sa, sb, out := Sort(a.entries, KeyLe), Sort(b.entries, KeyLe), SortKeys(a).entries;
    SortedEntries(a.entries);
    SortedEntries(b.entries);
    assert a.entries[i] in sa;
    var k :| 0 <= k < |sa| && sa[k] == a.entries[i];
    assert out[k].0 == sa[k].0 == sb[k].0;
    assert sb[k] in b.entries;
    KeyFindsEntry(b.entries, j, sb[k]);
    assert SortKeys(sa[k].1) == out[k].1 == SortKeys(sb[k].1);
  }

  lemma SameKeysThroughSorted(a: seq<Entry>, b: seq<Entry>, sa: seq<Entry>, sb: seq<Entry>, out: seq<Entry>)
    requires forall key :: HasKey(sa, key) <==> HasKey(a, key)
    requires forall key :: HasKey(sb, key) <==> HasKey(b, key)
    requires |sa| == |sb| == |out| && forall i :: 0 <= i < |out| ==> out[i].0 == sa[i].0 == sb[i].0
    ensures SameKeys(a, b)
  {
    SameKeysOnceMapped(a, sa, out);
    SameKeysOnceMapped(b, sb, out);
    forall i | 0 <= i < |a|
      ensures HasKey(b, a[i].0)
    {
      var j :| 0 <= j < |out| && out[j].0 == a[i].0;
      assert HasKey(b, out[j].0);
    }
    forall i | 0 <= i < |b|
      ensures HasKey(a, b[i].0)
    {
      var j :| 0 <= j < |out| && out[j].0 == b[i].0;
      assert HasKey(a, out[j].0);
    }
  }

  /** Sorting is idempotent: a canonical form is its own. */
  lemma {:induction false} SortKeysIdempotent(v: Value)
    requires WellFormed(v)
    ensures SortKeys(SortKeys(v)) == SortKeys(v)
  {
    SortKeysCanonical(v);
    SameTreeSortsAlike(v, SortKeys(v));
  }
}
