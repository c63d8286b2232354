/** JSON values. An object keeps its entries in insertion order; a field that is
    absent differs from one that is null. */
module Json {
  import opened Wrappers

  datatype Value =
    | Null
    | Bool(flag: bool)
    | Number(text: string)
    | String(text: string)
    | Array(items: seq<Value>)
    | Object(entries: seq<(string, Value)>)

  function Lookup(entries: seq<(string, Value)>, key: string): Option<Value> {
    if entries == [] then None
    else if entries[0].0 == key then Some(entries[0].1)
    else Lookup(entries[1..], key)
  }

  /** A field of an object; every other value has none. */
  function Get(v: Value, key: string): Option<Value> {
    if v.Object? then Lookup(v.entries, key) else None
  }

  predicate UniqueKeys(entries: seq<(string, Value)>) {
    forall i, j :: 0 <= i < j < |entries| ==> entries[i].0 != entries[j].0
  }

  /** In an object that names each key once, a field is the value stored under its key. */
  lemma GetMeans(v: Value, key: string, field: Value)
    requires v.Object? ==> UniqueKeys(v.entries)
    ensures Get(v, key) == Some(field) <==> v.Object? && (key, field) in v.entries
  {
    if v.Object? {
      LookupMeans(v.entries, key, field);
    }
  }

  lemma {:induction false} LookupMeans(entries: seq<(string, Value)>, key: string, field: Value)
    requires UniqueKeys(entries)
    ensures Lookup(entries, key) == Some(field) <==> (key, field) in entries
  {
    if entries != [] {
      LookupMeans(entries[1..], key, field);
      assert entries == [entries[0]] + entries[1..];
      if entries[0].0 == key {
        assert forall j :: 1 <= j < |entries| ==> entries[j].0 != key;
      }
    }
  }
}
