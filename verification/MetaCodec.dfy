/** Metadata of columns, schemas, tables, indexes and the catalog as bytes. Encoders move a pointer through the
    buffer and leave four bytes after each name unwritten, so what they lay out is a row of cells: written
    bytes and gaps. Each layout takes what follows it as an argument. */
module MetaCells {
  import opened SlottedLayout
  import opened SlottedPage
  import opened RowCodec

  const COLUMN_MAGIC_NUM := 210928
  const SCHEMA_MAGIC_NUM := 200715
  const TABLE_METADATA_MAGIC_NUM := 344528
  const INDEX_METADATA_MAGIC_NUM := 344528
  const CATALOG_METADATA_MAGIC_NUM := 89849

  datatype Column = Column(name: seq<byte>, kind: TypeId, len: int, tableInd: int, nullable: bool, unique: bool)

  datatype TableMeta = TableMeta(id: int, name: seq<byte>, rootPageId: int, columns: seq<Column>)

  datatype IndexMeta = IndexMeta(id: int, name: seq<byte>, tableId: int, keyMap: seq<int>)

  datatype CatalogMeta = CatalogMeta(tables: map<int, int>, indexes: map<int, int>)

  predicate U32(v: int) {
    0 <= v < 0x1_0000_0000
  }

  predicate I32(v: int) {
    -0x8000_0000 <= v < 0x8000_0000
  }

  predicate ColumnOk(c: Column) {
    U32(|c.name|) && U32(c.tableInd)
  }

  predicate ColumnsOk(cs: seq<Column>) {
    U32(|cs|) && forall i :: 0 <= i < |cs| ==> ColumnOk(cs[i])
  }

  predicate TableMetaOk(t: TableMeta) {
    U32(t.id) && U32(|t.name|) && I32(t.rootPageId) && ColumnsOk(t.columns)
  }

  predicate WordsOk(ws: seq<int>) {
    U32(|ws|) && forall i :: 0 <= i < |ws| ==> U32(ws[i])
  }

  predicate IndexMetaOk(x: IndexMeta) {
    U32(x.id) && U32(|x.name|) && U32(x.tableId) && WordsOk(x.keyMap)
  }

  /** A listing of the map's keys, in the order in which it is iterated. */
  ghost predicate Lists(order: seq<int>, m: map<int, int>) {
    && (forall k :: k in order <==> k in m)
    && (forall i, j :: 0 <= i < j < |order| ==> order[i] != order[j])
  }

  predicate PairsOk(order: seq<int>, m: map<int, int>) {
    |order| < 0x8000_0000 && forall i :: 0 <= i < |order| ==> order[i] in m && U32(order[i]) && I32(m[order[i]])
  }

  // ---------- Layouts ----------

  datatype Cell = Written(b: byte) | Gap

  function Cells(b: seq<byte>): (r: seq<Cell>)
    ensures |r| == |b| && forall i :: 0 <= i < |b| ==> r[i] == Written(b[i])
  {
    seq(|b|, i requires 0 <= i < |b| => Written(b[i]))
  }

  function Gaps(): (r: seq<Cell>)
    ensures |r| == 4 && forall i :: 0 <= i < 4 ==> r[i] == Gap
  {
    [Gap, Gap, Gap, Gap]
  }

  function WordCells(v: int, rest: seq<Cell>): seq<Cell>
    requires U32(v)
  {
    Cells(Encode(v)) + rest
  }

  function FlagCells(b: bool, rest: seq<Cell>): seq<Cell> {
    Cells([if b then 1 else 0]) + rest
  }

  function NameCells(name: seq<byte>, rest: seq<Cell>): seq<Cell>
    requires U32(|name|)
  {
    WordCells(|name|, Cells(name) + (Gaps() + rest))
  }

  function TypeCode(t: TypeId): int {
    match t
    case IntType => 1
    case FloatType => 2
    case CharType => 3
  }

  function ColumnCells(c: Column, rest: seq<Cell>): seq<Cell>
    requires ColumnOk(c)
  {
    WordCells(COLUMN_MAGIC_NUM, NameCells(c.name, WordCells(TypeCode(c.kind), WordCells(c.tableInd,
      FlagCells(c.nullable, FlagCells(c.unique, rest))))))
  }

  function ColumnsCells(cs: seq<Column>, rest: seq<Cell>): seq<Cell>
    requires ColumnsOk(cs)
  {
    if cs == [] then rest else ColumnCells(cs[0], ColumnsCells(cs[1..], rest))
  }

  function SchemaCells(cs: seq<Column>, rest: seq<Cell>): seq<Cell>
    requires ColumnsOk(cs)
  {
    WordCells(SCHEMA_MAGIC_NUM, WordCells(|cs|, ColumnsCells(cs, rest)))
  }

  function TableCells(t: TableMeta, rest: seq<Cell>): seq<Cell>
    requires TableMetaOk(t)
  {
    WordCells(TABLE_METADATA_MAGIC_NUM, WordCells(t.id, NameCells(t.name, WordCells(Unsigned(t.rootPageId),
      SchemaCells(t.columns, rest)))))
  }

  function WordsCells(ws: seq<int>, rest: seq<Cell>): seq<Cell>
    requires WordsOk(ws)
  {
    if ws == [] then rest else WordCells(ws[0], WordsCells(ws[1..], rest))
  }

  function IndexCells(x: IndexMeta, rest: seq<Cell>): seq<Cell>
    requires IndexMetaOk(x)
  {
    WordCells(INDEX_METADATA_MAGIC_NUM, WordCells(x.id, NameCells(x.name, WordCells(x.tableId,
      WordCells(|x.keyMap|, WordsCells(x.keyMap, rest))))))
  }

  function PairsCells(order: seq<int>, m: map<int, int>, rest: seq<Cell>): seq<Cell>
    requires PairsOk(order, m)
  {
    if order == [] then rest
    else WordCells(order[0], WordCells(Unsigned(m[order[0]]), PairsCells(order[1..], m, rest)))
  }

  predicate CatalogOk(c: CatalogMeta, tables: seq<int>, indexes: seq<int>) {
    PairsOk(tables, c.tables) && PairsOk(indexes, c.indexes)
  }

  function CatalogCells(c: CatalogMeta, tables: seq<int>, indexes: seq<int>, rest: seq<Cell>): seq<Cell>
    requires CatalogOk(c, tables, indexes)
  {
    WordCells(CATALOG_METADATA_MAGIC_NUM, WordCells(|tables|, PairsCells(tables, c.tables,
      WordCells(|indexes|, PairsCells(indexes, c.indexes, rest)))))
  }

  // ---------- Where each field lies ----------

  ghost predicate WordAt(cells: seq<Cell>, o: int, v: int) {
    0 <= o && o + 4 <= |cells| && U32(v) && cells[o..o + 4] == Cells(Encode(v))
  }

  /** A name at offset o: its length, its bytes, and a gap. */
  ghost predicate NameAt(cells: seq<Cell>, o: int, name: seq<byte>) {
    var n := |name|;
    && WordAt(cells, o, n) && o + 8 + n <= |cells|
    && cells[o + 4..o + 4 + n] == Cells(name) && cells[o + 4 + n..o + 8 + n] == Gaps()
  }

  lemma WordFirst(v: int, rest: seq<Cell>, cells: seq<Cell>, at: int)
    requires U32(v) && 0 <= at <= |cells| && cells[at..] == WordCells(v, rest)
    ensures WordAt(cells, at, v) && cells[at + 4..] == rest
  {
    assert cells[at..][..4] == Cells(Encode(v)) && cells[at..][4..] == rest;
  }

  lemma NameFirst(name: seq<byte>, rest: seq<Cell>, cells: seq<Cell>, at: int)
    requires U32(|name|) && 0 <= at <= |cells| && cells[at..] == NameCells(name, rest)
    ensures NameAt(cells, at, name) && cells[at + 8 + |name|..] == rest
  {
    var n := |name|;
    var more := Cells(name) + (Gaps() + rest);
    WordFirst(n, more, cells, at);
    assert more[..n] == Cells(name) && more[n..n + 4] == Gaps() && more[n + 4..] == rest;
    assert cells[at + 4..at + 4 + n] == more[..n] && cells[at + 4 + n..at + 8 + n] == more[n..n + 4];
    assert cells[at + 8 + n..] == more[n + 4..];
  }

  lemma ColumnLayout(c: Column, rest: seq<Cell>)
    requires ColumnOk(c)
    ensures var cells := ColumnCells(c, rest); var n := |c.name|;
      && WordAt(cells, 0, 210928) && NameAt(cells, 4, c.name)
      && WordAt(cells, 12 + n, match c.kind case IntType => 1 case FloatType => 2 case CharType => 3)
      && WordAt(cells, 16 + n, c.tableInd) && |cells| >= 22 + n
      && cells[20 + n] == Written(if c.nullable then 1 else 0) && cells[21 + n] == Written(if c.unique then 1 else 0)
      && cells[22 + n..] == rest
  {
    var cells, n := ColumnCells(c, rest), |c.name|;
    var unique := FlagCells(c.unique, rest);
    var flags := FlagCells(c.nullable, unique);
    var kind := WordCells(TypeCode(c.kind), WordCells(c.tableInd, flags));
    WordFirst(COLUMN_MAGIC_NUM, NameCells(c.name, kind), cells, 0);
    NameFirst(c.name, kind, cells, 4);
    WordFirst(TypeCode(c.kind), WordCells(c.tableInd, flags), cells, 12 + n);
    WordFirst(c.tableInd, flags, cells, 16 + n);
    assert flags[0] == cells[20 + n] && flags[1..] == unique && unique[0] == cells[21 + n] && unique[1..] == rest;
    assert cells[22 + n..] == flags[2..] && flags[2..] == unique[1..];
  }

  lemma SchemaLayout(cs: seq<Column>, rest: seq<Cell>)
    requires ColumnsOk(cs)
    ensures var cells := SchemaCells(cs, rest);
      WordAt(cells, 0, 200715) && WordAt(cells, 4, |cs|) && cells[8..] == ColumnsCells(cs, rest)
  {
    var cells := SchemaCells(cs, rest);
    WordFirst(SCHEMA_MAGIC_NUM, WordCells(|cs|, ColumnsCells(cs, rest)), cells, 0);
    WordFirst(|cs|, ColumnsCells(cs, rest), cells, 4);
  }

  lemma TableLayout(t: TableMeta, rest: seq<Cell>)
    requires TableMetaOk(t)
    ensures var cells := TableCells(t, rest); var n := |t.name|;
      && WordAt(cells, 0, 344528) && WordAt(cells, 4, t.id) && NameAt(cells, 8, t.name)
      && WordAt(cells, 16 + n, if t.rootPageId < 0 then t.rootPageId + 0x1_0000_0000 else t.rootPageId)
      && cells[20 + n..] == SchemaCells(t.columns, rest)
  {
    var cells, n := TableCells(t, rest), |t.name|;
    var schema := SchemaCells(t.columns, rest);
    var name := NameCells(t.name, WordCells(Unsigned(t.rootPageId), schema));
    WordFirst(TABLE_METADATA_MAGIC_NUM, WordCells(t.id, name), cells, 0);
    WordFirst(t.id, name, cells, 4);
    NameFirst(t.name, WordCells(Unsigned(t.rootPageId), schema), cells, 8);
    WordFirst(Unsigned(t.rootPageId), schema, cells, 16 + n);
  }

  lemma IndexLayout(x: IndexMeta, rest: seq<Cell>)
    requires IndexMetaOk(x)
    ensures var cells := IndexCells(x, rest); var n := |x.name|;
      && WordAt(cells, 0, 344528) && WordAt(cells, 4, x.id) && NameAt(cells, 8, x.name)
      && WordAt(cells, 16 + n, x.tableId) && WordAt(cells, 20 + n, |x.keyMap|)
      && cells[24 + n..] == WordsCells(x.keyMap, rest)
  {
    var cells, n := IndexCells(x, rest), |x.name|;
    var map1 := WordsCells(x.keyMap, rest);
    var name := NameCells(x.name, WordCells(x.tableId, WordCells(|x.keyMap|, map1)));
    WordFirst(INDEX_METADATA_MAGIC_NUM, WordCells(x.id, name), cells, 0);
    WordFirst(x.id, name, cells, 4);
    NameFirst(x.name, WordCells(x.tableId, WordCells(|x.keyMap|, map1)), cells, 8);
    WordFirst(x.tableId, WordCells(|x.keyMap|, map1), cells, 16 + n);
    WordFirst(|x.keyMap|, map1, cells, 20 + n);
  }

  /** The words of a key map lie one behind the other, in order. */
  lemma {:induction false} WordsLayout(ws: seq<int>, rest: seq<Cell>, i: nat)
    requires WordsOk(ws) && i < |ws|
    ensures WordAt(WordsCells(ws, rest), 4 * i, ws[i])
  {
    var cells := WordsCells(ws, rest);
    WordFirst(ws[0], WordsCells(ws[1..], rest), cells, 0);
    if i > 0 {
      WordsLayout(ws[1..], rest, i - 1);
      WordBehind(cells, 4, 4 * i - 4, ws[i]);
    }
  }

  /** So do the pairs of a map: each key and then its page id. */
  lemma {:induction false} PairsLayout(order: seq<int>, m: map<int, int>, rest: seq<Cell>, i: nat)
    requires PairsOk(order, m) && i < |order|
    ensures PairAt(PairsCells(order, m, rest), 8 * i, order[i], m[order[i]])
  {
    PairFirst(order, m, rest);
    if i > 0 {
      PairsLayout(order[1..], m, rest, i - 1);
      assert order[1..][i - 1] == order[i];
      PairBehind(PairsCells(order, m, rest), 8, 8 * (i - 1), order[i], m[order[i]]);
      assert 8 + 8 * (i - 1) == 8 * i;
    }
  }

  /** A key and, behind it, a page id in two's complement. */
  ghost predicate PairAt(cells: seq<Cell>, o: int, k: int, v: int) {
    WordAt(cells, o, k) && WordAt(cells, o + 4, if v < 0 then v + 0x1_0000_0000 else v)
  }

  lemma PairBehind(cells: seq<Cell>, n: nat, o: int, k: int, v: int)
    requires n <= |cells| && PairAt(cells[n..], o, k, v)
    ensures PairAt(cells, n + o, k, v)
  {
    WordBehind(cells, n, o, k);
    WordBehind(cells, n, o + 4, if v < 0 then v + 0x1_0000_0000 else v);
  }

  lemma PairFirst(order: seq<int>, m: map<int, int>, rest: seq<Cell>)
    requires PairsOk(order, m) && order != []
    ensures var cells := PairsCells(order, m, rest);
      PairAt(cells, 0, order[0], m[order[0]]) && |cells| >= 8 && cells[8..] == PairsCells(order[1..], m, rest)
  {
    var cells := PairsCells(order, m, rest);
    var more := PairsCells(order[1..], m, rest);
    WordFirst(order[0], WordCells(Unsigned(m[order[0]]), more), cells, 0);
    WordFirst(Unsigned(m[order[0]]), more, cells, 4);
  }

  lemma WordBehind(cells: seq<Cell>, n: nat, o: int, v: int)
    requires n <= |cells| && WordAt(cells[n..], o, v)
    ensures WordAt(cells, n + o, v)
  {
    assert cells[n + o..n + o + 4] == cells[n..][o..o + 4];
  }

  lemma CatalogLayout(c: CatalogMeta, tables: seq<int>, indexes: seq<int>, rest: seq<Cell>)
    requires CatalogOk(c, tables, indexes)
    ensures var cells := CatalogCells(c, tables, indexes, rest); var n := 8 * |tables|;
      && WordAt(cells, 0, 89849) && WordAt(cells, 4, |tables|) && WordAt(cells, 8 + n, |indexes|)
      && |cells| >= 12 + n && cells[12 + n..] == PairsCells(indexes, c.indexes, rest)
      && exists more :: cells[8..] == PairsCells(tables, c.tables, more)
  {
    var cells, n := CatalogCells(c, tables, indexes, rest), 8 * |tables|;
    var last := PairsCells(indexes, c.indexes, rest);
    var more := WordCells(|indexes|, last);
    var pairs := PairsCells(tables, c.tables, more);
    WordFirst(CATALOG_METADATA_MAGIC_NUM, WordCells(|tables|, pairs), cells, 0);
    WordFirst(|tables|, pairs, cells, 4);
    PairsEnd(tables, c.tables, more);
    assert cells[8 + n..] == pairs[n..];
    WordFirst(|indexes|, last, cells, 8 + n);
  }

  lemma {:induction false} PairsEnd(order: seq<int>, m: map<int, int>, rest: seq<Cell>)
    requires PairsOk(order, m)
    ensures |PairsCells(order, m, rest)| >= 8 * |order| && PairsCells(order, m, rest)[8 * |order|..] == rest
  {
    if order != [] {
      var cells := PairsCells(order, m, rest);
      PairsEnd(order[1..], m, rest);
      PairFirst(order, m, rest);
      assert cells[8 * |order|..] == cells[8..][8 * |order| - 8..];
    }
  }

  // ---------- Sizes ----------

  function ColumnSize(c: Column): int {
    3 * 4 + 2 + (4 + |c.name|) + 4
  }

  lemma ColumnCellsSize(c: Column, rest: seq<Cell>)
    requires ColumnOk(c)
    ensures |ColumnCells(c, rest)| == ColumnSize(c) + |rest|
  {
  }

  function ColumnsSize(cs: seq<Column>): int {
    if cs == [] then 0 else ColumnsSize(cs[..|cs| - 1]) + ColumnSize(cs[|cs| - 1])
  }

  lemma {:induction false} ColumnsSizeFront(cs: seq<Column>)
    requires cs != []
    ensures ColumnsSize(cs) == ColumnSize(cs[0]) + ColumnsSize(cs[1..])
  {
    if |cs| > 1 {
      ColumnsSizeFront(cs[..|cs| - 1]);
      assert cs[..|cs| - 1][1..] == cs[1..][..|cs| - 2];
    } else {
      assert cs[..0] == [] && cs[1..] == [];
    }
  }

  lemma {:induction false} ColumnsCellsSize(cs: seq<Column>, rest: seq<Cell>)
    requires ColumnsOk(cs)
    ensures |ColumnsCells(cs, rest)| == ColumnsSize(cs) + |rest|
  {
    if cs != [] {
      ColumnsCellsSize(cs[1..], rest);
      ColumnCellsSize(cs[0], ColumnsCells(cs[1..], rest));
      ColumnsSizeFront(cs);
    }
  }

  lemma {:induction false} WordsCellsSize(ws: seq<int>, rest: seq<Cell>)
    requires WordsOk(ws)
    ensures |WordsCells(ws, rest)| == 4 * |ws| + |rest|
  {
    if ws != [] {
      WordsCellsSize(ws[1..], rest);
    }
  }

  lemma {:induction false} PairsCellsSize(order: seq<int>, m: map<int, int>, rest: seq<Cell>)
    requires PairsOk(order, m)
    ensures |PairsCells(order, m, rest)| == 8 * |order| + |rest|
  {
    if order != [] {
      PairsCellsSize(order[1..], m, rest);
    }
  }

  // ---------- What decoding gives ----------

  /** A C string ends at its first NUL. */
  function UpToNul(s: seq<byte>): (r: seq<byte>)
    ensures r <= s && 0 !in r && (|r| < |s| ==> s[|r|] == 0)
    ensures r == s <==> 0 !in s
  {
    if s == [] || s[0] == 0 then []
    else
      var rest := UpToNul(s[1..]);
      assert s == [s[0]] + s[1..];
      [s[0]] + rest
  }

  /** The constructor that the decoder uses sets a CHAR column's length from the length of its name. */
  function LengthFor(kind: TypeId, name: seq<byte>): int {
    if kind == CharType then |name| + 4 else 4
  }

  function Reloaded(c: Column): Column {
    c.(name := UpToNul(c.name), len := LengthFor(c.kind, UpToNul(c.name)))
  }

  function ReloadedAll(cs: seq<Column>): (r: seq<Column>)
    ensures |r| == |cs| && forall i :: 0 <= i < |cs| ==> r[i] == Reloaded(cs[i])
  {
    seq(|cs|, i requires 0 <= i < |cs| => Reloaded(cs[i]))
  }

  /** A column survives exactly when its name has no NUL and its length is the one the constructor computes. */
  lemma ReloadedSame(c: Column)
    ensures Reloaded(c) == c <==> 0 !in c.name && c.len == if c.kind == CharType then |c.name| + 4 else 4
  {
  }

  /** A CHAR(16) column with a one-letter name comes back as CHAR(5). */
  lemma CharLengthLost(c: Column)
    requires c.name == [97] && c.kind == CharType && c.len == 16
    ensures Reloaded(c) == c.(len := 5)
  {
  }

  function ReloadedTable(t: TableMeta): TableMeta {
    t.(name := UpToNul(t.name), columns := ReloadedAll(t.columns))
  }
}

module MetaCodec {
  import opened SlottedLayout
  import opened SlottedPage
  import opened RowCodec
  import opened MetaCells

  /** The buffer with the cells written over its start. */
  ghost function Overlay(s: seq<byte>, cells: seq<Cell>): (r: seq<byte>)
    requires |cells| <= |s|
  {
    seq(|s|, i requires 0 <= i < |s| => if i < |cells| && cells[i].Written? then cells[i].b else s[i])
  }

  /** The buffer agrees with the cells from `at` on. */
  ghost predicate Agrees(s: seq<byte>, at: int, cells: seq<Cell>) {
    0 <= at && at + |cells| <= |s| && forall i :: 0 <= i < |cells| && cells[i].Written? ==> s[at + i] == cells[i].b
  }

  class Writer {
    const buf: array<byte>
    ghost const start: seq<byte>
    /** All that is to be written, and the part still to come. */
    ghost const plan: seq<Cell>
    ghost var todo: seq<Cell>
    var ofs: nat

    ghost predicate Valid()
      reads this, buf
    {
      && |start| == buf.Length && |plan| <= buf.Length && ofs <= |plan| && todo == plan[ofs..]
      && buf[..] == Overlay(start, plan[..ofs])
    }

    constructor (buf: array<byte>, ghost plan: seq<Cell>)
      requires |plan| <= buf.Length
      ensures Valid() && this.buf == buf && todo == plan && this.plan == plan && ofs == 0 && start == buf[..]
    {
      this.buf, this.plan, this.start, this.todo, this.ofs := buf, plan, buf[..], plan, 0;
    }

    method Bytes(b: seq<byte>, ghost rest: seq<Cell>)
      requires Valid() && todo == Cells(b) + rest
      modifies this, buf
      ensures Valid() && todo == rest && ofs == old(ofs) + |b|
    {
      assert forall i :: 0 <= i < |b| ==> todo[i] == plan[ofs + i];
      forall i | 0 <= i < |b| {
        buf[ofs + i] := b[i];
      }
      ofs := ofs + |b|;
      todo := rest;
    }

    method Skip(ghost rest: seq<Cell>)
      requires Valid() && todo == Gaps() + rest
      modifies this
      ensures Valid() && todo == rest && ofs == old(ofs) + 4
    {
      assert forall i :: 0 <= i < 4 ==> todo[i] == plan[ofs + i];
      ofs := ofs + 4;
      todo := rest;
    }
  }

  method WriteWord(w: Writer, v: int, ghost rest: seq<Cell>)
    requires w.Valid() && U32(v) && w.todo == WordCells(v, rest)
    modifies w, w.buf
    ensures w.Valid() && w.todo == rest
  {
    w.Bytes(Encode(v), rest);
  }

  method WriteFlag(w: Writer, b: bool, ghost rest: seq<Cell>)
    requires w.Valid() && w.todo == FlagCells(b, rest)
    modifies w, w.buf
    ensures w.Valid() && w.todo == rest
  {
    w.Bytes([if b then 1 else 0], rest);
  }

  /** The length, the characters, and four bytes left as they were. */
  method WriteName(w: Writer, name: seq<byte>, ghost rest: seq<Cell>)
    requires w.Valid() && U32(|name|) && w.todo == NameCells(name, rest)
    modifies w, w.buf
    ensures w.Valid() && w.todo == rest
  {
    WriteWord(w, |name|, Cells(name) + (Gaps() + rest));
    w.Bytes(name, Gaps() + rest);
    w.Skip(rest);
  }

  method WriteColumn(w: Writer, c: Column, ghost rest: seq<Cell>)
    requires w.Valid() && ColumnOk(c) && w.todo == ColumnCells(c, rest)
    modifies w, w.buf
    ensures w.Valid() && w.todo == rest
  {
    ghost var flags := FlagCells(c.nullable, FlagCells(c.unique, rest));
    ghost var ind := WordCells(c.tableInd, flags);
    ghost var kind := WordCells(TypeCode(c.kind), ind);
    WriteWord(w, COLUMN_MAGIC_NUM, NameCells(c.name, kind));
    WriteName(w, c.name, kind);
    WriteWord(w, TypeCode(c.kind), ind);
    WriteWord(w, c.tableInd, flags);
    WriteFlag(w, c.nullable, FlagCells(c.unique, rest));
    WriteFlag(w, c.unique, rest);
  }

  method WriteColumns(w: Writer, cs: seq<Column>, ghost rest: seq<Cell>)
    requires w.Valid() && ColumnsOk(cs) && w.todo == ColumnsCells(cs, rest)
    modifies w, w.buf
    ensures w.Valid() && w.todo == rest
  {
    var k := 0;
    assert cs[0..] == cs;
    while k < |cs|
      invariant 0 <= k <= |cs| && w.Valid() && w.todo == ColumnsCells(cs[k..], rest)
    {
      ColumnsCellsNext(cs, k, rest);
      WriteColumn(w, cs[k], ColumnsCells(cs[k + 1..], rest));
      k := k + 1;
    }
  }

  method WriteSchema(w: Writer, cs: seq<Column>, ghost rest: seq<Cell>)
    requires w.Valid() && ColumnsOk(cs) && w.todo == SchemaCells(cs, rest)
    modifies w, w.buf
    ensures w.Valid() && w.todo == rest
  {
    WriteWord(w, SCHEMA_MAGIC_NUM, WordCells(|cs|, ColumnsCells(cs, rest)));
    WriteWord(w, |cs|, ColumnsCells(cs, rest));
    WriteColumns(w, cs, rest);
  }

  method WriteTable(w: Writer, t: TableMeta, ghost rest: seq<Cell>)
    requires w.Valid() && TableMetaOk(t) && w.todo == TableCells(t, rest)
    modifies w, w.buf
    ensures w.Valid() && w.todo == rest
  {
    ghost var schema := SchemaCells(t.columns, rest);
    ghost var root := WordCells(Unsigned(t.rootPageId), schema);
    WriteWord(w, TABLE_METADATA_MAGIC_NUM, WordCells(t.id, NameCells(t.name, root)));
    WriteWord(w, t.id, NameCells(t.name, root));
    WriteName(w, t.name, root);
    WriteWord(w, Unsigned(t.rootPageId), schema);
    WriteSchema(w, t.columns, rest);
  }

  method WriteIndex(w: Writer, x: IndexMeta, ghost rest: seq<Cell>)
    requires w.Valid() && IndexMetaOk(x) && w.todo == IndexCells(x, rest)
    modifies w, w.buf
    ensures w.Valid() && w.todo == rest
  {
    ghost var keys := WordsCells(x.keyMap, rest);
    ghost var table := WordCells(x.tableId, WordCells(|x.keyMap|, keys));
    WriteWord(w, INDEX_METADATA_MAGIC_NUM, WordCells(x.id, NameCells(x.name, table)));
    WriteWord(w, x.id, NameCells(x.name, table));
    WriteName(w, x.name, table);
    WriteWord(w, x.tableId, WordCells(|x.keyMap|, keys));
    WriteWord(w, |x.keyMap|, keys);
    var k := 0;
    assert x.keyMap[0..] == x.keyMap;
    while k < |x.keyMap|
      invariant 0 <= k <= |x.keyMap| && w.Valid() && w.todo == WordsCells(x.keyMap[k..], rest)
    {
      assert x.keyMap[k..][1..] == x.keyMap[k + 1..];
      WriteWord(w, x.keyMap[k], WordsCells(x.keyMap[k + 1..], rest));
      k := k + 1;
    }
  }

  method WritePairs(w: Writer, order: seq<int>, m: map<int, int>, ghost rest: seq<Cell>)
    requires w.Valid() && PairsOk(order, m) && w.todo == PairsCells(order, m, rest)
    modifies w, w.buf
    ensures w.Valid() && w.todo == rest
  {
    var k := 0;
    assert order[0..] == order;
    while k < |order|
      invariant 0 <= k <= |order| && w.Valid() && w.todo == PairsCells(order[k..], m, rest)
    {
      assert order[k..][1..] == order[k + 1..];
      ghost var after := PairsCells(order[k + 1..], m, rest);
      WriteWord(w, order[k], WordCells(Unsigned(m[order[k]]), after));
      WriteWord(w, Unsigned(m[order[k]]), after);
      k := k + 1;
    }
  }

  method WriteCatalog(w: Writer, c: CatalogMeta, tables: seq<int>, indexes: seq<int>, ghost rest: seq<Cell>)
    requires w.Valid() && CatalogOk(c, tables, indexes) && w.todo == CatalogCells(c, tables, indexes, rest)
    modifies w, w.buf
    ensures w.Valid() && w.todo == rest
  {
    ghost var last := PairsCells(indexes, c.indexes, rest);
    ghost var first := PairsCells(tables, c.tables, WordCells(|indexes|, last));
    WriteWord(w, CATALOG_METADATA_MAGIC_NUM, WordCells(|tables|, first));
    WriteWord(w, |tables|, first);
    WritePairs(w, tables, c.tables, WordCells(|indexes|, last));
    WriteWord(w, |indexes|, last);
    WritePairs(w, indexes, c.indexes, rest);
  }

  // ---------- Reading ----------

  /** A pointer moving through a buffer. `ahead` is the layout known to lie before it. */
  class Reader {
    const buf: array<byte>
    ghost var ahead: seq<Cell>
    var ofs: nat

    ghost predicate Valid()
      reads this, buf
    {
      Agrees(buf[..], ofs, ahead)
    }

    constructor (buf: array<byte>, ghost ahead: seq<Cell>)
      requires Agrees(buf[..], 0, ahead)
      ensures Valid() && this.buf == buf && this.ahead == ahead && ofs == 0
    {
      this.buf, this.ahead, this.ofs := buf, ahead, 0;
    }

    method Bytes(n: nat, ghost b: seq<byte>, ghost rest: seq<Cell>) returns (r: seq<byte>)
      requires Valid() && |b| == n && ahead == Cells(b) + rest
      modifies this
      ensures Valid() && ahead == rest && ofs == old(ofs) + n && r == b
    {
      assert forall i :: 0 <= i < n ==> ahead[i] == Written(b[i]);
      assert forall i :: 0 <= i < |rest| ==> ahead[n + i] == rest[i];
      r := buf[ofs..ofs + n];
      ofs := ofs + n;
      ahead := rest;
    }

    method Skip(ghost rest: seq<Cell>)
      requires Valid() && ahead == Gaps() + rest
      modifies this
      ensures Valid() && ahead == rest && ofs == old(ofs) + 4
    {
      assert forall i :: 0 <= i < |rest| ==> ahead[4 + i] == rest[i];
      ofs := ofs + 4;
      ahead := rest;
    }
  }

  method ReadWord(r: Reader, ghost v: int, ghost rest: seq<Cell>) returns (w: int)
    requires r.Valid() && U32(v) && r.ahead == WordCells(v, rest)
    modifies r
    ensures r.Valid() && r.ahead == rest && r.ofs == old(r.ofs) + 4 && w == v
  {
    var b := r.Bytes(4, Encode(v), rest);
    NumEncode(v);
    w := Num(b);
  }

  method ReadFlag(r: Reader, ghost v: bool, ghost rest: seq<Cell>) returns (b: bool)
    requires r.Valid() && r.ahead == FlagCells(v, rest)
    modifies r
    ensures r.Valid() && r.ahead == rest && r.ofs == old(r.ofs) + 1 && b == v
  {
    var bytes := r.Bytes(1, [if v then 1 else 0], rest);
    b := bytes[0] != 0;
  }

  /** strncpy, then a string made of what precedes the first NUL. */
  method ReadName(r: Reader, ghost v: seq<byte>, ghost rest: seq<Cell>) returns (name: seq<byte>)
    requires r.Valid() && U32(|v|) && r.ahead == NameCells(v, rest)
    modifies r
    ensures r.Valid() && r.ahead == rest && r.ofs == old(r.ofs) + |v| + 8 && name == UpToNul(v)
  {
    var len := ReadWord(r, |v|, Cells(v) + (Gaps() + rest));
    var bytes := r.Bytes(len, v, Gaps() + rest);
    r.Skip(rest);
    name := UpToNul(bytes);
  }

  /** Whatever the buffer held before, the gaps included, a column laid out in it is read back but for what
      follows a NUL in its name and for a CHAR column's length; the bytes consumed are the size predicted. */
  method ReadColumn(r: Reader, ghost v: Column, ghost rest: seq<Cell>) returns (c: Column)
    requires r.Valid() && ColumnOk(v) && r.ahead == ColumnCells(v, rest)
    modifies r
    ensures r.Valid() && r.ahead == rest && r.ofs == old(r.ofs) + ColumnSize(v) && c == Reloaded(v)
  {
    ghost var flags := FlagCells(v.nullable, FlagCells(v.unique, rest));
    ghost var ind := WordCells(v.tableInd, flags);
    ghost var kinds := WordCells(TypeCode(v.kind), ind);
    var magic := ReadWord(r, COLUMN_MAGIC_NUM, NameCells(v.name, kinds));
    var name := ReadName(r, v.name, kinds);
    var code := ReadWord(r, TypeCode(v.kind), ind);
    var index := ReadWord(r, v.tableInd, flags);
    var nullable := ReadFlag(r, v.nullable, FlagCells(v.unique, rest));
    var unique := ReadFlag(r, v.unique, rest);
    var kind := if code == 1 then IntType else if code == 2 then FloatType else CharType;
    c := Column(name, kind, LengthFor(kind, name), index, nullable, unique);
  }

  method ReadColumns(r: Reader, size: int, ghost v: seq<Column>, ghost rest: seq<Cell>) returns (cs: seq<Column>)
    requires r.Valid() && ColumnsOk(v) && size == |v| && r.ahead == ColumnsCells(v, rest)
    modifies r
    ensures r.Valid() && r.ahead == rest && r.ofs == old(r.ofs) + ColumnsSize(v) && cs == ReloadedAll(v)
  {
    cs := [];
    var i := 0;
    ghost var at := r.ofs;
    ColumnsStart(v, rest, at);
    while i < size
      invariant 0 <= i <= |v| && r.Valid() && ColumnsRead(v, i, rest, at, r.ahead, r.ofs, cs)
    {
      cs := ReadOneColumn(r, v, i, rest, at, cs);
      i := i + 1;
    }
    assert v[..i] == v && v[i..] == [];
  }

  method ReadOneColumn(r: Reader, ghost v: seq<Column>, ghost i: int, ghost rest: seq<Cell>, ghost at: int,
                       cs: seq<Column>)
    returns (more: seq<Column>)
    requires r.Valid() && ColumnsOk(v) && 0 <= i < |v| && ColumnsRead(v, i, rest, at, r.ahead, r.ofs, cs)
    modifies r
    ensures r.Valid() && ColumnsRead(v, i + 1, rest, at, r.ahead, r.ofs, more)
  {
    ColumnsCellsNext(v, i, rest);
    ColumnsReadNext(v, i, rest, at, cs);
    var c := ReadColumn(r, v[i], ColumnsCells(v[i + 1..], rest));
    more := cs + [c];
  }

  lemma ColumnsReadNext(v: seq<Column>, i: int, rest: seq<Cell>, at: int, cs: seq<Column>)
    requires ColumnsOk(v) && 0 <= i < |v| && cs == ReloadedAll(v[..i])
    ensures ColumnsRead(v, i + 1, rest, at, ColumnsCells(v[i + 1..], rest),
                        at + ColumnsSize(v[..i]) + ColumnSize(v[i]), cs + [Reloaded(v[i])])
  {
    ColumnsNext(v, i);
  }

  /** The first i columns have been read. */
  ghost predicate ColumnsRead(v: seq<Column>, i: int, rest: seq<Cell>, at: int, ahead: seq<Cell>, ofs: int,
                              cs: seq<Column>)
    requires ColumnsOk(v) && 0 <= i <= |v|
  {
    && ahead == ColumnsCells(v[i..], rest) && ofs == at + ColumnsSize(v[..i]) && cs == ReloadedAll(v[..i])
  }

  lemma ColumnsStart(v: seq<Column>, rest: seq<Cell>, at: int)
    requires ColumnsOk(v)
    ensures ColumnsRead(v, 0, rest, at, ColumnsCells(v, rest), at, [])
  {
  }

  method ReadSchema(r: Reader, ghost v: seq<Column>, ghost rest: seq<Cell>) returns (cs: seq<Column>)
    requires r.Valid() && ColumnsOk(v) && r.ahead == SchemaCells(v, rest)
    modifies r
    ensures r.Valid() && r.ahead == rest && r.ofs == old(r.ofs) + 8 + ColumnsSize(v) && cs == ReloadedAll(v)
  {
    var magic := ReadWord(r, SCHEMA_MAGIC_NUM, WordCells(|v|, ColumnsCells(v, rest)));
    var size := ReadWord(r, |v|, ColumnsCells(v, rest));
    cs := ReadColumns(r, size, v, rest);
  }

  lemma ColumnsCellsNext(v: seq<Column>, i: int, rest: seq<Cell>)
    requires ColumnsOk(v) && 0 <= i < |v|
    ensures ColumnsCells(v[i..], rest) == ColumnCells(v[i], ColumnsCells(v[i + 1..], rest))
  {
  }

  lemma ColumnsNext(v: seq<Column>, i: int)
    requires ColumnsOk(v) && 0 <= i < |v|
    ensures ColumnsSize(v[..i + 1]) == ColumnsSize(v[..i]) + ColumnSize(v[i])
    ensures ReloadedAll(v[..i + 1]) == ReloadedAll(v[..i]) + [Reloaded(v[i])]
  {
    assert v[..i + 1][..i] == v[..i];
  }

  method ReadTable(r: Reader, ghost v: TableMeta, ghost rest: seq<Cell>) returns (t: TableMeta)
    requires r.Valid() && TableMetaOk(v) && r.ahead == TableCells(v, rest)
    modifies r
    ensures r.Valid() && r.ahead == rest && t == ReloadedTable(v)
    ensures r.ofs == old(r.ofs) + TableSize(v)
  {
    ghost var schema := SchemaCells(v.columns, rest);
    ghost var roots := WordCells(Unsigned(v.rootPageId), schema);
    var magic := ReadWord(r, TABLE_METADATA_MAGIC_NUM, WordCells(v.id, NameCells(v.name, roots)));
    var id := ReadWord(r, v.id, NameCells(v.name, roots));
    var name := ReadName(r, v.name, roots);
    var root := ReadWord(r, Unsigned(v.rootPageId), schema);
    var columns := ReadSchema(r, v.columns, rest);
    t := TableMeta(id, name, Signed(root), columns);
  }

  method ReadWords(r: Reader, size: int, ghost v: seq<int>, ghost rest: seq<Cell>) returns (ws: seq<int>)
    requires r.Valid() && WordsOk(v) && size == |v| && r.ahead == WordsCells(v, rest)
    modifies r
    ensures r.Valid() && r.ahead == rest && r.ofs == old(r.ofs) + 4 * |v| && ws == v
  {
    ws := [];
    var i := 0;
    assert v[0..] == v;
    while i < size
      invariant 0 <= i <= |v| && r.Valid() && r.ahead == WordsCells(v[i..], rest)
      invariant r.ofs == old(r.ofs) + 4 * i && ws == v[..i]
    {
      assert v[i..][1..] == v[i + 1..];
      var w := ReadWord(r, v[i], WordsCells(v[i + 1..], rest));
      ws := ws + [w];
      i := i + 1;
    }
  }

  method ReadIndex(r: Reader, ghost v: IndexMeta, ghost rest: seq<Cell>) returns (x: IndexMeta)
    requires r.Valid() && IndexMetaOk(v) && r.ahead == IndexCells(v, rest)
    modifies r
    ensures r.Valid() && r.ahead == rest && x == v.(name := UpToNul(v.name))
    ensures r.ofs == old(r.ofs) + IndexSize(v)
  {
    ghost var keys := WordsCells(v.keyMap, rest);
    ghost var table := WordCells(v.tableId, WordCells(|v.keyMap|, keys));
    var magic := ReadWord(r, INDEX_METADATA_MAGIC_NUM, WordCells(v.id, NameCells(v.name, table)));
    var id := ReadWord(r, v.id, NameCells(v.name, table));
    var name := ReadName(r, v.name, table);
    var tableId := ReadWord(r, v.tableId, WordCells(|v.keyMap|, keys));
    var size := ReadWord(r, |v.keyMap|, keys);
    var keyMap := ReadWords(r, size, v.keyMap, rest);
    x := IndexMeta(id, name, tableId, keyMap);
  }

  /** The map's part that these keys list. */
  ghost function Part(order: seq<int>, m: map<int, int>): map<int, int> {
    map k | k in order && k in m :: m[k]
  }

  lemma PartAll(order: seq<int>, m: map<int, int>)
    requires Lists(order, m)
    ensures Part(order, m) == m
  {
    forall k ensures k in Part(order, m) <==> k in m {
    }
  }

  lemma PairsNext(order: seq<int>, m: map<int, int>, i: int, rest: seq<Cell>)
    requires PairsOk(order, m) && Lists(order, m) && 0 <= i < |order|
    ensures PairsCells(order[i..], m, rest) ==
      WordCells(order[i], WordCells(Unsigned(m[order[i]]), PairsCells(order[i + 1..], m, rest)))
    ensures order[i] !in Part(order[..i], m) && Part(order[..i + 1], m) == Part(order[..i], m)[order[i] := m[order[i]]]
  {
  }

  method ReadPair(r: Reader, ghost k: int, ghost v: int, ghost rest: seq<Cell>) returns (first: int, second: int)
    requires r.Valid() && U32(k) && I32(v) && r.ahead == WordCells(k, WordCells(Unsigned(v), rest))
    modifies r
    ensures r.Valid() && r.ahead == rest && r.ofs == old(r.ofs) + 8 && first == k && second == v
  {
    first := ReadWord(r, k, WordCells(Unsigned(v), rest));
    second := ReadWord(r, Unsigned(v), rest);
    second := Signed(second);
  }

  /** Reads pairs and emplaces them, the first of equal keys winning. */
  method ReadPairs(r: Reader, size: int, ghost order: seq<int>, ghost m: map<int, int>, ghost rest: seq<Cell>)
    returns (out: map<int, int>)
    requires r.Valid() && PairsOk(order, m) && Lists(order, m) && size == |order|
    requires r.ahead == PairsCells(order, m, rest)
    modifies r
    ensures r.Valid() && r.ahead == rest && r.ofs == old(r.ofs) + 8 * |order| && out == m
  {
    out := map[];
    var i := 0;
    ghost var at := r.ofs;
    assert order[0..] == order;
    while i < size
      invariant 0 <= i <= |order| && r.Valid() && PairsRead(order, m, i, rest, at, r.ahead, r.ofs, out)
    {
      out := ReadOnePair(r, order, m, i, rest, at, out);
      i := i + 1;
    }
    assert order[..i] == order;
    PartAll(order, m);
  }

  /** The first i pairs have been read. */
  ghost predicate PairsRead(order: seq<int>, m: map<int, int>, i: int, rest: seq<Cell>, at: int, ahead: seq<Cell>,
                            ofs: int, out: map<int, int>)
    requires PairsOk(order, m) && 0 <= i <= |order|
  {
    ahead == PairsCells(order[i..], m, rest) && ofs == at + 8 * i && out == Part(order[..i], m)
  }

  method ReadOnePair(r: Reader, ghost order: seq<int>, ghost m: map<int, int>, ghost i: int, ghost rest: seq<Cell>,
                     ghost at: int, out: map<int, int>)
    returns (more: map<int, int>)
    requires r.Valid() && PairsOk(order, m) && Lists(order, m) && 0 <= i < |order|
    requires PairsRead(order, m, i, rest, at, r.ahead, r.ofs, out)
    modifies r
    ensures r.Valid() && PairsRead(order, m, i + 1, rest, at, r.ahead, r.ofs, more)
  {
    PairsNext(order, m, i, rest);
    var first, second := ReadPair(r, order[i], m[order[i]], PairsCells(order[i + 1..], m, rest));
    more := if first !in out then out[first := second] else out;
  }

  method ReadCatalog(r: Reader, ghost v: CatalogMeta, ghost tables: seq<int>, ghost indexes: seq<int>,
                     ghost rest: seq<Cell>)
    returns (c: CatalogMeta)
    requires r.Valid() && CatalogOk(v, tables, indexes) && Lists(tables, v.tables) && Lists(indexes, v.indexes)
    requires r.ahead == CatalogCells(v, tables, indexes, rest)
    modifies r
    ensures r.Valid() && r.ahead == rest && c == v && r.ofs == old(r.ofs) + 12 + 8 * |tables| + 8 * |indexes|
  {
    ghost var last := PairsCells(indexes, v.indexes, rest);
    ghost var first := PairsCells(tables, v.tables, WordCells(|indexes|, last));
    var magic := ReadWord(r, CATALOG_METADATA_MAGIC_NUM, WordCells(|tables|, first));
    var tableNums := ReadWord(r, |tables|, first);
    var t := ReadPairs(r, tableNums, tables, v.tables, WordCells(|indexes|, last));
    var indexNums := ReadWord(r, |indexes|, last);
    var x := ReadPairs(r, indexNums, indexes, v.indexes, rest);
    c := CatalogMeta(t, x);
  }

  // ---------- Sizes predicted ----------

  function TableSize(t: TableMeta): int {
    3 * 4 + (4 + |t.name|) + 4 + (2 * 4 + ColumnsSize(t.columns))
  }

  function IndexSize(x: IndexMeta): int {
    5 * 4 + (4 + |x.name|) + 4 * |x.keyMap|
  }

  method SchemaGetSerializedSize(cs: seq<Column>) returns (size: int)
    requires ColumnsOk(cs)
    ensures size == |SchemaCells(cs, [])|
  {
    size := 2 * 4;
    var k := 0;
    while k < |cs|
      invariant 0 <= k <= |cs| && size == 8 + ColumnsSize(cs[..k])
    {
      assert cs[..k + 1][..k] == cs[..k];
      size := size + ColumnSize(cs[k]);
      k := k + 1;
    }
    assert cs[..k] == cs;
    ColumnsCellsSize(cs, []);
  }

  lemma TableSizeOk(t: TableMeta)
    requires TableMetaOk(t)
    ensures TableSize(t) == |TableCells(t, [])|
  {
    ColumnsCellsSize(t.columns, []);
  }

  lemma IndexSizeOk(x: IndexMeta)
    requires IndexMetaOk(x)
    ensures IndexSize(x) == |IndexCells(x, [])|
  {
    WordsCellsSize(x.keyMap, []);
  }

  method CatalogGetSerializedSize(c: CatalogMeta, tables: seq<int>, indexes: seq<int>) returns (size: int)
    requires CatalogOk(c, tables, indexes)
    ensures size == |CatalogCells(c, tables, indexes, [])|
  {
    size := 2 * 4;
    size := size + 4;
    for i := 0 to |tables|
      invariant size == 12 + 8 * i
    {
      size := size + 4 + 4;
    }
    for i := 0 to |indexes|
      invariant size == 12 + 8 * |tables| + 8 * i
    {
      size := size + 4 + 4;
    }
    CatalogSizeOk(c, tables, indexes);
  }

  // ---------- Round trips ----------

  lemma OverlayAgrees(s: seq<byte>, cells: seq<Cell>)
    requires |cells| <= |s|
    ensures Agrees(Overlay(s, cells), 0, cells)
  {
  }

  /** Saving a table's metadata into any buffer and loading it again. */
  method TableRoundTrip(t: TableMeta, buf: array<byte>) returns (back: TableMeta, written: nat, read: nat)
    requires TableMetaOk(t) && TableSize(t) <= buf.Length
    modifies buf
    ensures back == ReloadedTable(t) && written == read == TableSize(t)
    ensures forall i :: TableSize(t) <= i < buf.Length ==> buf[i] == old(buf[i])
  {
    TableSizeOk(t);
    ghost var plan := TableCells(t, []);
    var w := new Writer(buf, plan);
    WriteTable(w, t, []);
    written := w.ofs;
    assert plan[..w.ofs] == plan;
    OverlayAgrees(w.start, plan);
    var r := new Reader(buf, plan);
    back := ReadTable(r, t, []);
    read := r.ofs;
  }

  method IndexRoundTrip(x: IndexMeta, buf: array<byte>) returns (back: IndexMeta, written: nat, read: nat)
    requires IndexMetaOk(x) && IndexSize(x) <= buf.Length
    modifies buf
    ensures back == x.(name := UpToNul(x.name)) && (back == x <==> 0 !in x.name)
    ensures written == read == IndexSize(x)
    ensures forall i :: IndexSize(x) <= i < buf.Length ==> buf[i] == old(buf[i])
  {
    IndexSizeOk(x);
    ghost var plan := IndexCells(x, []);
    var w := new Writer(buf, plan);
    WriteIndex(w, x, []);
    written := w.ofs;
    assert plan[..w.ofs] == plan;
    OverlayAgrees(w.start, plan);
    var r := new Reader(buf, plan);
    back := ReadIndex(r, x, []);
    read := r.ofs;
  }

  function CatalogSize(tables: seq<int>, indexes: seq<int>): int {
    2 * 4 + 4 + 8 * |tables| + 8 * |indexes|
  }

  lemma CatalogSizeOk(c: CatalogMeta, tables: seq<int>, indexes: seq<int>)
    requires CatalogOk(c, tables, indexes)
    ensures CatalogSize(tables, indexes) == |CatalogCells(c, tables, indexes, [])|
  {
    PairsCellsSize(indexes, c.indexes, []);
    PairsCellsSize(tables, c.tables, WordCells(|indexes|, PairsCells(indexes, c.indexes, [])));
  }

  /** `tables` and `indexes` are the orders in which the two maps are iterated. */
  method CatalogRoundTrip(c: CatalogMeta, tables: seq<int>, indexes: seq<int>, buf: array<byte>)
    returns (back: CatalogMeta, written: nat, read: nat)
    requires CatalogOk(c, tables, indexes) && Lists(tables, c.tables) && Lists(indexes, c.indexes)
    requires CatalogSize(tables, indexes) <= buf.Length
    modifies buf
    ensures back == c && written == read == CatalogSize(tables, indexes)
    ensures forall i :: CatalogSize(tables, indexes) <= i < buf.Length ==> buf[i] == old(buf[i])
  {
    CatalogSizeOk(c, tables, indexes);
    ghost var plan := CatalogCells(c, tables, indexes, []);
    var w := new Writer(buf, plan);
    WriteCatalog(w, c, tables, indexes, []);
    written := w.ofs;
    assert plan[..w.ofs] == plan;
    OverlayAgrees(w.start, plan);
    var r := new Reader(buf, plan);
    back := ReadCatalog(r, c, tables, indexes, []);
    read := r.ofs;
  }

  /** A table's metadata survives exactly when no name in it has a NUL and every column's length is the one
      the decoder's constructor computes. */
  lemma TableSurvivesIff(t: TableMeta)
    ensures ReloadedTable(t) == t <==>
      && 0 !in t.name
      && forall i :: 0 <= i < |t.columns| ==>
        0 !in t.columns[i].name && t.columns[i].len == LengthFor(t.columns[i].kind, t.columns[i].name)
  {
  }
}
