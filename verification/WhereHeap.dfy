/** WHERE conditions over a table heap: the rows come from a scan of the pages and are decoded from bytes. */
module WhereHeap {
  import opened BTreePages
  import opened SlottedLayout
  import opened SlottedPage
  import opened RowCodec
  import opened TableHeap
  import opened TableScan
  import opened Where

  function IntTypes(n: nat): (r: seq<TypeId>)
    ensures |r| == n
  {
    seq(n, _ => IntType)
  }

  /** The bytes hold a row of n integers. */
  predicate HoldsInts(bytes: seq<byte>, n: nat) {
    DecodeRow(IntTypes(n), bytes).Parsed?
  }

  /** The integers of a row of n columns. */
  function Ints(bytes: seq<byte>, n: nat): (r: seq<int>)
    requires HoldsInts(bytes, n)
    ensures |r| == n
  {
    DecodedLength(IntTypes(n), bytes);
    var fields := DecodeRow(IntTypes(n), bytes).value;
    seq(n, i requires 0 <= i < n => if fields[i].IntField? then fields[i].value else 0)
  }

  lemma {:induction false} DecodedLength(types: seq<TypeId>, b: seq<byte>)
    requires DecodeRow(types, b).Parsed?
    ensures |DecodeRow(types, b).value| == |types|
  {
    if types != [] {
      DecodedLength(types[1..], b[DecodeField(types[0], b).used..]);
    }
  }

  /** Every live row of the heap holds a row of n integers. */
  ghost predicate IntRows(rows: map<RowId, Tuple>, n: nat) {
    forall rid :: rid in rows && Live(rows[rid]) ==> HoldsInts(rows[rid].bytes, n)
  }

  /** A live row that satisfies the condition. */
  ghost predicate Chosen(rows: map<RowId, Tuple>, columns: seq<string>, c: Condition, rid: RowId)
    requires IntRows(rows, |columns|)
  {
    rid in rows && Live(rows[rid]) && Satisfies(columns, Ints(rows[rid].bytes, |columns|), c)
  }

  /** The rows behind these row ids are live and hold integers. */
  ghost predicate Readable(rows: map<RowId, Tuple>, n: nat, rids: seq<RowId>) {
    forall i :: 0 <= i < |rids| ==>
      rids[i] in rows && Live(rows[rids[i]]) && HoldsInts(rows[rids[i]].bytes, n)
  }

  /** The table of these row ids, in this order, with their decoded values. */
  ghost function TableOf(rows: map<RowId, Tuple>, columns: seq<string>, rids: seq<RowId>): (t: Table)
    requires Readable(rows, |columns|, rids)
    ensures t.columns == columns && |t.rows| == |rids|
    ensures forall i :: 0 <= i < |rids| ==> t.rows[i] == TableRow(rids[i], Ints(rows[rids[i]].bytes, |columns|))
  {
    Table(columns, seq(|rids|, i requires 0 <= i < |rids| => TableRow(rids[i], Ints(rows[rids[i]].bytes, |columns|))))
  }

  /** The row ids that a scan of the heap visits. */
  ghost function ScanList(heap: TableHeap): (rids: seq<RowId>)
    requires heap.Valid() && IsListed(heap)
    reads heap
  {
    if FirstPageLive(heap) then LiveFrom(heap.pages, heap.chain, 0, 0) else []
  }

  ghost predicate IsListed(heap: TableHeap)
    reads heap
  {
    heap.firstPageId in heap.pages && Listed(heap.pages, heap.chain)
  }

  lemma ScanListOk(heap: TableHeap, n: nat)
    requires heap.Valid() && IntRows(Rows(heap.pages), n)
    ensures IsListed(heap) && Readable(Rows(heap.pages), n, ScanList(heap))
    ensures forall i, j :: 0 <= i < j < |ScanList(heap)| ==> ScanList(heap)[i] != ScanList(heap)[j]
    ensures FirstPageLive(heap) ==>
      forall rid :: rid in ScanList(heap) <==> rid in Rows(heap.pages) && Live(Rows(heap.pages)[rid])
  {
    ScanListIsLiveRows(heap.pages, heap.firstPageId, heap.chain);
    LiveFromDistinct(heap.pages, heap.chain, 0, 0);
    assert LinkOk(heap.pages, heap.chain, 0);
    var rids := ScanList(heap);
    forall i | 0 <= i < |rids| ensures rids[i] in Rows(heap.pages) && Live(Rows(heap.pages)[rids[i]]) {
      assert rids[i] in rids;
    }
  }

  method ReadRow(heap: TableHeap, rid: RowId, n: nat) returns (values: seq<int>)
    requires heap.Valid() && rid in Rows(heap.pages) && Live(Rows(heap.pages)[rid])
    requires HoldsInts(Rows(heap.pages)[rid].bytes, n)
    ensures values == Ints(Rows(heap.pages)[rid].bytes, n)
  {
    RowsAt(heap.pages, rid);
    var ok, bytes := heap.GetTuple(rid);
    values := DecodeInts(bytes, n);
  }

  /** Scans the heap and decodes each row. */
  method ReadTable(heap: TableHeap, columns: seq<string>) returns (t: Table)
    requires heap.Valid() && IsListed(heap) && Readable(Rows(heap.pages), |columns|, ScanList(heap))
    ensures t == TableOf(Rows(heap.pages), columns, ScanList(heap))
  {
    var out := ScanAll(heap);
    ghost var full := TableOf(Rows(heap.pages), columns, out).rows;
    var rows: seq<TableRow> := [];
    var k := 0;
    while k < |out|
      invariant 0 <= k <= |out| == |full| && rows == full[..k]
    {
      var values := ReadRow(heap, out[k], |columns|);
      assert full[k] == TableRow(out[k], values) && full[..k + 1] == full[..k] + [full[k]];
      rows := rows + [TableRow(out[k], values)];
      k := k + 1;
    }
    t := Table(columns, rows);
  }

  method DecodeInts(bytes: seq<byte>, n: nat) returns (values: seq<int>)
    requires HoldsInts(bytes, n)
    ensures values == Ints(bytes, n)
  {
    var buf := new byte[|bytes|](i requires 0 <= i < |bytes| => bytes[i]);
    assert buf[..] == bytes;
    DecodedLength(IntTypes(n), bytes);
    var parsed := DeserializeFrom(IntTypes(n), buf);
    var fields := parsed.value;
    values := seq(n, i requires 0 <= i < n => if fields[i].IntField? then fields[i].value else 0);
  }

  lemma SelectedRows(rows: map<RowId, Tuple>, columns: seq<string>, rids: seq<RowId>, c: Condition)
    requires Readable(rows, |columns|, rids) && IntRows(rows, |columns|)
    ensures forall rid :: rid in Selection(TableOf(rows, columns, rids), c) <==>
      rid in rids && Chosen(rows, columns, c, rid)
  {
  }

  /** The result is the live rows whose own value in the named column the operator selects. */
  ghost predicate PicksRows(rows: map<RowId, Tuple>, columns: seq<string>, c: Condition, result: seq<RowId>)
    requires IntRows(rows, |columns|) && c.Compare?
  {
    && (forall rid :: rid in result ==> rid in rows && Live(rows[rid]))
    && forall rid, j :: rid in rows && Live(rows[rid]) && ColumnAt(columns, c.column, j) ==>
      Agrees(c.op, Ints(rows[rid].bytes, |columns|)[j], c.value, rid in result)
  }

  lemma ComparisonPicks(rows: map<RowId, Tuple>, columns: seq<string>, c: Condition)
    requires IntRows(rows, |columns|) && c.Compare?
    ensures forall rid, j :: rid in rows && Live(rows[rid]) && ColumnAt(columns, c.column, j) ==>
      Agrees(c.op, Ints(rows[rid].bytes, |columns|)[j], c.value, Chosen(rows, columns, c, rid))
  {
    forall rid, j | rid in rows && Live(rows[rid]) && ColumnAt(columns, c.column, j)
      ensures Agrees(c.op, Ints(rows[rid].bytes, |columns|)[j], c.value, Chosen(rows, columns, c, rid))
    {
      ColumnIndexAt(columns, c.column, j);
    }
  }

  /** The integers of a row are those that were encoded. */
  lemma IntsOfEncoding(row: seq<Field>, rest: seq<byte>)
    requires RowOk(row) && forall i :: 0 <= i < |row| ==> row[i].IntField?
    ensures HoldsInts(EncodeRow(row) + rest, |row|)
    ensures forall i :: 0 <= i < |row| ==> Ints(EncodeRow(row) + rest, |row|)[i] == row[i].value
  {
    assert Types(row) == IntTypes(|row|);
    KeptRowRoundTrip(row, rest);
  }

  /** A condition over a table of integer columns without an index: how it ends is decided on the table that the
      scan sees. If it succeeds it selects exactly the live rows that satisfy it, provided the first page of the
      heap holds a live row; otherwise nothing. */
  method ExecuteWhere(heap: TableHeap, columns: seq<string>, c: Condition) returns (code: Code, result: seq<RowId>)
    requires heap.Valid() && IntRows(Rows(heap.pages), |columns|)
    ensures IsListed(heap) && Readable(Rows(heap.pages), |columns|, ScanList(heap))
    ensures code == CodeOf(TableOf(Rows(heap.pages), columns, ScanList(heap)), c)
    ensures code == Success ==> Ascending(result)
    ensures code == Success && FirstPageLive(heap) ==>
      forall rid :: rid in result <==> Chosen(Rows(heap.pages), columns, c, rid)
    ensures code == Success && FirstPageLive(heap) && c.Compare? ==> PicksRows(Rows(heap.pages), columns, c, result)
    ensures code == Success && !FirstPageLive(heap) ==> result == []
    ensures OnlyAnds(c) ==> (code == Success <==> WellNamed(Table(columns, []), c))
  {
    ScanListOk(heap, |columns|);
    var t := ReadTable(heap, columns);
    assert TableOk(t);
    SelectedRows(Rows(heap.pages), columns, ScanList(heap), c);
    if c.Compare? {
      ComparisonPicks(Rows(heap.pages), columns, c);
    }
    if OnlyAnds(c) {
      AndTreeSucceeds(t, c);
      SameNames(t, Table(columns, []), c);
    }
    var context := new ExecuteContext(t);
    code := context.ExecuteInternalNode(c);
    result := context.result;
    assert forall rid :: rid in result <==> rid in Members(result);
    assert result != [] ==> result[0] in result;
  }

  lemma {:induction false} SameNames(t: Table, u: Table, c: Condition)
    requires t.columns == u.columns
    ensures WellNamed(t, c) <==> WellNamed(u, c)
  {
    if c.Connector? {
      SameNames(t, u, c.left);
      SameNames(t, u, c.right);
    }
  }
}
