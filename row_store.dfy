/** The generic row store the services write through: one table, a mapping
    from row id to row that remembers insertion order (the order in which
    `getTable` hands rows back). Writing an existing id replaces its row in
    place; writing a new id appends. */
module RowStore {
  import opened Options

  datatype Entry<R> = Entry(key: string, row: R)

  function Keys<R>(es: seq<Entry<R>>): (ks: seq<string>)
    ensures |ks| == |es|
    ensures forall i :: 0 <= i < |es| ==> ks[i] == es[i].key
  {
    if es == [] then [] else [es[0].key] + Keys(es[1..])
  }

  /** `Object.values(getTable(...))`: the rows in table order. */
  function Values<R>(es: seq<Entry<R>>): (rows: seq<R>)
    ensures |rows| == |es|
    ensures forall i :: 0 <= i < |es| ==> rows[i] == es[i].row
  {
    if es == [] then [] else [es[0].row] + Values(es[1..])
  }

  /** No id occurs twice in a table: the first id does not recur, and the rest
      are distinct. */
  ghost predicate DistinctKeys<R>(es: seq<Entry<R>>) {
    es == [] || (es[0].key !in Keys(es[1..]) && DistinctKeys(es[1..]))
  }

  /** `getRow(table, k)`: the row stored at k, if any. */
  function Lookup<R>(es: seq<Entry<R>>, k: string): (r: Option<R>)
    ensures r.Some? <==> k in Keys(es)
  {
    if es == [] then None
    else if es[0].key == k then Some(es[0].row)
    else Lookup(es[1..], k)
  }

  /** What Lookup finds is a row stored under k. */
  lemma {:induction false} LookupIsStored<R>(es: seq<Entry<R>>, k: string)
    requires Lookup(es, k).Some?
    ensures exists i :: 0 <= i < |es| && es[i] == Entry(k, Lookup(es, k).value)
  {
    if es[0].key != k {
      LookupIsStored(es[1..], k);
      var i :| 0 <= i < |es[1..]| && es[1..][i] == Entry(k, Lookup(es, k).value);
      assert es[i + 1] == es[1..][i];
    }
  }

  /** What Lookup finds is one of the table's rows. */
  lemma LookupInValues<R>(es: seq<Entry<R>>, k: string)
    requires Lookup(es, k).Some?
    ensures Lookup(es, k).value in Values(es)
  {
    LookupIsStored(es, k);
    var i :| 0 <= i < |es| && es[i] == Entry(k, Lookup(es, k).value);
    assert Values(es)[i] == es[i].row;
  }

  /** In a table without repeated ids, the row found at k is the one stored with k. */
  lemma {:induction false} LookupFindsStoredRow<R>(es: seq<Entry<R>>, i: nat)
    requires DistinctKeys(es) && i < |es|
    ensures Lookup(es, es[i].key) == Some(es[i].row)
  {
    if i > 0 {
      LookupFindsStoredRow(es[1..], i - 1);
      assert Keys(es[1..])[i - 1] == es[i].key;
    }
  }

  /** `setRow(table, k, v)`: replace the row at k where it stands, or append it. */
  function Put<R>(es: seq<Entry<R>>, k: string, v: R): (r: seq<Entry<R>>)
    ensures Lookup(r, k) == Some(v)
  {
    if es == [] then [Entry(k, v)]
    else if es[0].key == k then [Entry(k, v)] + es[1..]
    else [es[0]] + Put(es[1..], k, v)
  }

  /** Writing an existing id keeps the ids and their order; writing a new id
      appends its row at the end. */
  lemma {:induction false} PutKeys<R>(es: seq<Entry<R>>, k: string, v: R)
    ensures k in Keys(es) ==> Keys(Put(es, k, v)) == Keys(es)
    ensures k !in Keys(es) ==> Put(es, k, v) == es + [Entry(k, v)]
  {
    if es != [] && es[0].key != k {
      PutKeys(es[1..], k, v);
      assert Keys(es) == [es[0].key] + Keys(es[1..]);
      assert Keys(Put(es, k, v)) == [es[0].key] + Keys(Put(es[1..], k, v));
    }
  }

  /** After a Put, k finds the new row and every other id what it found before. */
  lemma {:induction false} PutLookup<R>(es: seq<Entry<R>>, k: string, v: R, k': string)
    ensures Lookup(Put(es, k, v), k') == if k' == k then Some(v) else Lookup(es, k')
  {
    if es != [] && es[0].key != k {
      PutLookup(es[1..], k, v, k');
    }
  }

  /** Every entry after a Put is the new one or was there before. */
  lemma {:induction false} PutEntries<R>(es: seq<Entry<R>>, k: string, v: R)
    ensures forall i :: 0 <= i < |Put(es, k, v)| ==> Put(es, k, v)[i] == Entry(k, v) || Put(es, k, v)[i] in es
  {
    if es != [] && es[0].key != k {
      PutEntries(es[1..], k, v);
    }
  }

  /** Put keeps ids unique. */
  lemma {:induction false} PutKeepsKeysDistinct<R>(es: seq<Entry<R>>, k: string, v: R)
    requires DistinctKeys(es)
    ensures DistinctKeys(Put(es, k, v))
  {
    if es == [] {
      assert Put(es, k, v) == [Entry(k, v)];
    } else if es[0].key == k {
      assert Put(es, k, v)[1..] == es[1..];
    } else {
      var rest := Put(es[1..], k, v);
      PutKeepsKeysDistinct(es[1..], k, v);
      assert Put(es, k, v)[1..] == rest;
      PutLookup(es[1..], k, v, es[0].key);
    }
  }

  /** The table with every row whose id is in ks deleted; the rest keep their order. */
  function Without<R>(es: seq<Entry<R>>, ks: set<string>): (r: seq<Entry<R>>)
    ensures forall i :: 0 <= i < |r| ==> r[i] in es && r[i].key !in ks
    ensures forall i :: 0 <= i < |es| && es[i].key !in ks ==> es[i] in r
  {
    if es == [] then []
    else if es[0].key in ks then Without(es[1..], ks)
    else [es[0]] + Without(es[1..], ks)
  }

  /** After deleting, an id in ks is absent and any other id finds what it found before. */
  lemma {:induction false} WithoutLookup<R>(es: seq<Entry<R>>, ks: set<string>, k: string)
    ensures Lookup(Without(es, ks), k) == if k in ks then None else Lookup(es, k)
  {
    if es != [] {
      WithoutLookup(es[1..], ks, k);
      if es[0].key !in ks {
        assert ([es[0]] + Without(es[1..], ks))[1..] == Without(es[1..], ks);
      }
    }
  }

  /** Deleting keeps ids unique. */
  lemma {:induction false} WithoutKeepsKeysDistinct<R>(es: seq<Entry<R>>, ks: set<string>)
    requires DistinctKeys(es)
    ensures DistinctKeys(Without(es, ks))
  {
    if es != [] {
      WithoutKeepsKeysDistinct(es[1..], ks);
      if es[0].key !in ks {
        var rest := Without(es[1..], ks);
        assert Without(es, ks)[1..] == rest;
        WithoutLookup(es[1..], ks, es[0].key);
      }
    }
  }

  /** `delRow(table, k)`. */
  function Remove<R>(es: seq<Entry<R>>, k: string): (r: seq<Entry<R>>)
    ensures Lookup(r, k).None?
    ensures forall k' :: k' != k ==> Lookup(r, k') == Lookup(es, k')
    ensures DistinctKeys(es) ==> DistinctKeys(r)
  {
    var r := Without(es, {k});
    WithoutLookup(es, {k}, k);
    assert forall k' :: k' != k ==> Lookup(r, k') == Lookup(es, k') by {
      forall k' | k' != k {
        WithoutLookup(es, {k}, k');
      }
    }
    assert DistinctKeys(es) ==> DistinctKeys(r) by {
      if DistinctKeys(es) { WithoutKeepsKeysDistinct(es, {k}); }
    }
    r
  }

  /** Deleting no ids changes nothing. */
  lemma {:induction false} WithoutNothing<R>(es: seq<Entry<R>>)
    ensures Without(es, {}) == es
  {
    if es != [] {
      WithoutNothing(es[1..]);
    }
  }

  /** Deleting ids one after the other is deleting them all at once. */
  lemma {:induction false} WithoutTwice<R>(es: seq<Entry<R>>, ks: set<string>, k: string)
    ensures Without(Without(es, ks), {k}) == Without(es, ks + {k})
  {
    if es != [] {
      WithoutTwice(es[1..], ks, k);
    }
  }

  /** The set of ids a table holds. */
  function KeySet<R>(es: seq<Entry<R>>): set<string> {
    set k | k in Keys(es)
  }

  /** A table without repeated ids has one row per id. */
  lemma {:induction false} DistinctKeysCount<R>(es: seq<Entry<R>>)
    requires DistinctKeys(es)
    ensures |KeySet(es)| == |es|
  {
    if es != [] {
      DistinctKeysCount(es[1..]);
      assert Keys(es) == [es[0].key] + Keys(es[1..]);
      assert KeySet(es) == {es[0].key} + KeySet(es[1..]);
    }
  }

  /** Writing a new id adds one row; writing an existing id keeps the row count. */
  lemma PutSize<R>(es: seq<Entry<R>>, k: string, v: R)
    ensures |Put(es, k, v)| == if k in Keys(es) then |es| else |es| + 1
  {
    PutKeys(es, k, v);
  }

  /** In a table without repeated ids, deleting a held id removes one row and
      deleting any other id removes none. */
  lemma {:induction false} RemoveSize<R>(es: seq<Entry<R>>, k: string)
    requires DistinctKeys(es)
    ensures |Remove(es, k)| == if k in Keys(es) then |es| - 1 else |es|
  {
    if es != [] {
      RemoveSize(es[1..], k);
      assert Keys(es) == [es[0].key] + Keys(es[1..]);
    }
  }

  /** Every row is stored under the id that idOf reads from it. */
  ghost predicate KeyedBy<R>(es: seq<Entry<R>>, idOf: R -> string) {
    es == [] || (idOf(es[0].row) == es[0].key && KeyedBy(es[1..], idOf))
  }

  /** KeyedBy read position by position. */
  lemma {:induction false} KeyedByAt<R>(es: seq<Entry<R>>, idOf: R -> string, i: nat)
    requires KeyedBy(es, idOf) && i < |es|
    ensures idOf(es[i].row) == es[i].key
  {
    if i > 0 {
      KeyedByAt(es[1..], idOf, i - 1);
    }
  }

  /** In a table keyed by idOf, the row found at k has id k. */
  lemma FoundUnderOwnKey<R>(es: seq<Entry<R>>, idOf: R -> string, k: string)
    requires KeyedBy(es, idOf) && Lookup(es, k).Some?
    ensures idOf(Lookup(es, k).value) == k
  {
    LookupIsStored(es, k);
    var i :| 0 <= i < |es| && es[i] == Entry(k, Lookup(es, k).value);
    KeyedByAt(es, idOf, i);
  }

  /** Storing a row under its own id keeps the table keyed by idOf. */
  lemma {:induction false} PutKeepsKeyedBy<R>(es: seq<Entry<R>>, idOf: R -> string, v: R)
    requires KeyedBy(es, idOf)
    ensures KeyedBy(Put(es, idOf(v), v), idOf)
  {
    var k := idOf(v);
    if es == [] {
      assert Put(es, k, v) == [Entry(k, v)];
    } else if es[0].key == k {
      assert Put(es, k, v)[1..] == es[1..];
    } else {
      PutKeepsKeyedBy(es[1..], idOf, v);
      assert Put(es, k, v)[1..] == Put(es[1..], k, v);
    }
  }

  /** Deleting rows keeps the table keyed by idOf. */
  lemma {:induction false} WithoutKeepsKeyedBy<R>(es: seq<Entry<R>>, idOf: R -> string, ks: set<string>)
    requires KeyedBy(es, idOf)
    ensures KeyedBy(Without(es, ks), idOf)
  {
    if es != [] {
      WithoutKeepsKeyedBy(es[1..], idOf, ks);
      if es[0].key !in ks {
        assert Without(es, ks)[1..] == Without(es[1..], ks);
      }
    }
  }

  /** One table of the store. */
  class Table<R> {
    var entries: seq<Entry<R>>

    ghost predicate Valid()
      reads this
    {
      DistinctKeys(entries)
    }

    constructor ()
      ensures Valid() && entries == []
    {
      entries := [];
    }

    /** `getRow(k)`: the row stored under k, absent when k is not held. */
    function GetRow(k: string): (r: Option<R>)
      reads this
      ensures r.Some? <==> k in Keys(entries)
      ensures r.Some? ==> Entry(k, r.value) in entries
    {
      var r := Lookup(entries, k);
      assert r.Some? ==> Entry(k, r.value) in entries by {
        if r.Some? {
          LookupIsStored(entries, k);
        }
      }
      r
    }

    /** `Object.values(getTable())`: one row per held id, in table order, each
        the row `getRow` finds under that id. */
    function GetTable(): (rows: seq<R>)
      reads this
      requires Valid()
      ensures |rows| == |entries|
      ensures forall i :: 0 <= i < |entries| ==> GetRow(entries[i].key) == Some(rows[i])
    {
      forall i | 0 <= i < |entries| ensures Lookup(entries, entries[i].key) == Some(entries[i].row) {
        LookupFindsStoredRow(entries, i);
      }
      Values(entries)
    }

    method SetRow(k: string, v: R)
      requires Valid()
      modifies this
      ensures Valid()
      ensures entries == Put(old(entries), k, v)
    {
      PutKeepsKeysDistinct(entries, k, v);
      entries := Put(entries, k, v);
    }

    method DelRow(k: string)
      requires Valid()
      modifies this
      ensures Valid()
      ensures entries == Remove(old(entries), k)
    {
      entries := Remove(entries, k);
    }
  }
}
