/** The index over rows: keys are encoded, then the tree is used. */
module TreeIndex {
  import opened BTreePages
  import opened BTreeShape
  import opened BTree
  import opened IndexRoots
  import opened SlottedPage
  import opened RowCodec
  import opened IndexKeys

  datatype Answer = Succeeded | Refused

  /** A row that can be a key of this index; fields may be null. */
  predicate KeyRow(types: seq<TypeId>, keySize: nat, row: seq<Field>) {
    RowOk(row) && Types(row) == types && |EncodeRow(row)| <= keySize
  }

  function KeyOf(row: seq<Field>, keySize: nat): int
    requires RowOk(row) && |EncodeRow(row)| <= keySize
  {
    Rank(KeyBytes(row, keySize))
  }

  /** The rows have one key. */
  ghost predicate SameKey(types: seq<TypeId>, n: nat, a: seq<Field>, b: seq<Field>) {
    KeyRow(types, n, a) && KeyRow(types, n, b) && KeyBytes(a, n) == KeyBytes(b, n)
  }

  lemma KeyOfSame(types: seq<TypeId>, n: nat, a: seq<Field>, b: seq<Field>)
    requires KeyRow(types, n, a) && KeyRow(types, n, b)
    ensures KeyOf(a, n) == KeyOf(b, n) <==> SameKey(types, n, a, b)
    ensures Storable(a) && Storable(b) ==> (SameKey(types, n, a, b) <==> a == b)
  {
    RankInjective(KeyBytes(a, n), KeyBytes(b, n));
    if Storable(a) && Storable(b) {
      KeyInjective(a, b, n);
    }
  }

  /** A null integer has the key of 0. */
  lemma NullSharesKey()
    ensures SameKey([IntType], 4, [NullField(IntType)], [IntField(0)])
  {
  }

  ghost predicate AllKeyRows(types: seq<TypeId>, n: nat, rows: map<seq<Field>, RowId>) {
    forall row :: row in rows ==> KeyRow(types, n, row)
  }

  /** The entries of a tree that indexes these rows; no two of them have one key. */
  ghost predicate Holds(types: seq<TypeId>, n: nat, rows: map<seq<Field>, RowId>, entries: set<Entry>)
    requires AllKeyRows(types, n, rows)
  {
    && (forall row :: row in rows ==> Entry(KeyOf(row, n), rows[row]) in entries)
    && (forall e :: e in entries ==> ComesFrom(types, n, rows, e))
    && KeysDiffer(types, n, rows)
  }

  /** The entry is that of an indexed row. */
  ghost predicate ComesFrom(types: seq<TypeId>, n: nat, rows: map<seq<Field>, RowId>, e: Entry)
    requires AllKeyRows(types, n, rows)
  {
    exists row :: row in rows && e == Entry(KeyOf(row, n), rows[row])
  }

  lemma StillComesFrom(types: seq<TypeId>, n: nat, rows: map<seq<Field>, RowId>, e: Entry, row: seq<Field>, rid: RowId)
    requires AllKeyRows(types, n, rows) && KeyRow(types, n, row) && row !in rows && ComesFrom(types, n, rows, e)
    ensures AllKeyRows(types, n, rows[row := rid]) && ComesFrom(types, n, rows[row := rid], e)
  {
  }

  ghost predicate KeysDiffer(types: seq<TypeId>, n: nat, rows: map<seq<Field>, RowId>) {
    forall a, b :: a in rows && b in rows && SameKey(types, n, a, b) ==> a == b
  }

  /** Some row that is indexed has the key of this one. */
  ghost predicate Present(types: seq<TypeId>, n: nat, rows: map<seq<Field>, RowId>, row: seq<Field>) {
    exists r :: r in rows && SameKey(types, n, r, row)
  }

  /** A row's key is in the tree exactly when a row with that key is indexed, and then with its row id. */
  lemma KeyTells(types: seq<TypeId>, n: nat, rows: map<seq<Field>, RowId>, entries: set<Entry>, row: seq<Field>)
    requires AllKeyRows(types, n, rows) && Holds(types, n, rows, entries) && KeyRow(types, n, row)
    ensures Present(types, n, rows, row) <==> exists e :: e in entries && e.key == KeyOf(row, n)
    ensures forall e, r :: e in entries && e.key == KeyOf(row, n) && r in rows && SameKey(types, n, r, row) ==>
      e.value == rows[r]
  {
    forall e | e in entries && e.key == KeyOf(row, n)
      ensures Present(types, n, rows, row)
      ensures forall r :: r in rows && SameKey(types, n, r, row) ==> e.value == rows[r]
    {
      assert ComesFrom(types, n, rows, e);
      var other :| other in rows && e == Entry(KeyOf(other, n), rows[other]);
      KeyOfSame(types, n, other, row);
      assert SameKey(types, n, other, row);
      forall r | r in rows && SameKey(types, n, r, row) ensures r == other {
        assert SameKey(types, n, r, other);
      }
    }
    if Present(types, n, rows, row) {
      var r :| r in rows && SameKey(types, n, r, row);
      assert Entry(KeyOf(r, n), rows[r]) in entries;
    }
  }

  /** No row at hand has a null field. */
  ghost predicate NoNulls(rows: map<seq<Field>, RowId>, row: seq<Field>) {
    Storable(row) && forall r :: r in rows ==> Storable(r)
  }

  /** Without null fields a row with the same key is the same row. */
  lemma PresentIsIn(types: seq<TypeId>, n: nat, rows: map<seq<Field>, RowId>, row: seq<Field>)
    requires AllKeyRows(types, n, rows) && KeyRow(types, n, row)
    ensures SameKey(types, n, row, row)
    ensures NoNulls(rows, row) ==> (Present(types, n, rows, row) <==> row in rows)
  {
    if row in rows {
      assert SameKey(types, n, row, row);
    }
    if Present(types, n, rows, row) && NoNulls(rows, row) {
      var r :| r in rows && SameKey(types, n, r, row);
      KeyOfSame(types, n, r, row);
    }
  }

  lemma HoldsMore(types: seq<TypeId>, n: nat, rows: map<seq<Field>, RowId>, entries: set<Entry>, row: seq<Field>,
                  rid: RowId)
    requires AllKeyRows(types, n, rows) && Holds(types, n, rows, entries) && KeyRow(types, n, row)
    requires !Present(types, n, rows, row)
    ensures AllKeyRows(types, n, rows[row := rid])
    ensures Holds(types, n, rows[row := rid], entries + {Entry(KeyOf(row, n), rid)})
  {
    var more := rows[row := rid];
    assert row !in rows by {
      if row in rows {
        assert SameKey(types, n, row, row);
      }
    }
    assert AllKeyRows(types, n, more);
    forall e | e in entries + {Entry(KeyOf(row, n), rid)} ensures ComesFrom(types, n, more, e) {
      if e in entries {
        StillComesFrom(types, n, rows, e, row, rid);
      } else {
        assert row in more && e == Entry(KeyOf(row, n), more[row]);
      }
    }
    MoreKeysDiffer(types, n, rows, row, rid);
  }

  lemma MoreKeysDiffer(types: seq<TypeId>, n: nat, rows: map<seq<Field>, RowId>, row: seq<Field>, rid: RowId)
    requires KeysDiffer(types, n, rows) && !Present(types, n, rows, row)
    ensures KeysDiffer(types, n, rows[row := rid])
  {
  }

  class BPlusTreeIndex {
    const types: seq<TypeId>
    const keySize: nat
    const container: BPlusTree
    /** The rows indexed so far. */
    ghost var rows: map<seq<Field>, RowId>

    ghost predicate Valid()
      reads this, container
    {
      container.Valid() && AllKeyRows(types, keySize, rows) && Holds(types, keySize, rows, Entries(container.pages))
    }

    constructor (types: seq<TypeId>, keySize: nat, id: nat, leafMax: nat, innerMax: nat, roots: seq<RootRecord>,
                 nextFree: PageId)
      requires leafMax >= 1 && innerMax >= 3 && DistinctIds(roots) && nextFree >= 2
      ensures Valid() && rows == map[] && fresh(container) && this.types == types && this.keySize == keySize
    {
      this.types, this.keySize := types, keySize;
      container := new BPlusTree(id, leafMax, innerMax, roots, nextFree);
      rows := map[];
    }

    /** Refused, changing nothing, exactly when a row with the same key is indexed; among rows without null
        fields that is the same row. */
    method InsertEntry(row: seq<Field>, rid: RowId) returns (answer: Answer)
      requires Valid() && KeyRow(types, keySize, row)
      modifies this, container
      ensures Valid()
      ensures answer == Refused <==> Present(types, keySize, old(rows), row)
      ensures NoNulls(old(rows), row) ==> (answer == Refused <==> row in old(rows))
      ensures rows == if answer == Succeeded then old(rows)[row := rid] else old(rows)
      ensures AsMap(container.roots) - {container.indexId} == old(AsMap(container.roots)) - {container.indexId}
    {
      PresentIsIn(types, keySize, rows, row);
      var ok := IndexRow(row, rid);
      answer := if ok then Succeeded else Refused;
    }

    /** Inserts the key, and on success counts the row as indexed. */
    method IndexRow(row: seq<Field>, rid: RowId) returns (ok: bool)
      requires Valid() && KeyRow(types, keySize, row)
      modifies this, container
      ensures Valid() && (ok <==> !Present(types, keySize, old(rows), row))
      ensures rows == if ok then old(rows)[row := rid] else old(rows)
      ensures AsMap(container.roots) - {container.indexId} == old(AsMap(container.roots)) - {container.indexId}
    {
      ghost var before := Entries(container.pages);
      ok := InsertKey(row, rid);
      if ok {
        HoldsMore(types, keySize, rows, before, row, rid);
        rows := rows[row := rid];
      }
    }

    /** Encodes the key and inserts it into the tree. */
    method InsertKey(row: seq<Field>, rid: RowId) returns (ok: bool)
      requires Valid() && KeyRow(types, keySize, row)
      modifies container
      ensures container.Valid() && (ok <==> !Present(types, keySize, rows, row))
      ensures Entries(container.pages) ==
        old(Entries(container.pages)) + (if ok then {Entry(KeyOf(row, keySize), rid)} else {})
      ensures AsMap(container.roots) - {container.indexId} == old(AsMap(container.roots)) - {container.indexId}
    {
      var key := SerializeFromKey(row, keySize);
      KeyTells(types, keySize, rows, Entries(container.pages), row);
      ok := container.Insert(Rank(key[..]), rid);
    }

    /** Finds the row id of the indexed row with the same key. */
    method ScanKey(row: seq<Field>) returns (found: bool, rid: RowId)
      requires Valid() && KeyRow(types, keySize, row)
      ensures found <==> Present(types, keySize, rows, row)
      ensures found ==> forall r :: r in rows && SameKey(types, keySize, r, row) ==> rid == rows[r]
      ensures NoNulls(rows, row) ==> (found <==> row in rows) && (found ==> rid == rows[row])
    {
      var key := SerializeFromKey(row, keySize);
      KeyTells(types, keySize, rows, Entries(container.pages), row);
      PresentIsIn(types, keySize, rows, row);
      found, rid := container.GetValue(Rank(key[..]));
    }
  }
}
