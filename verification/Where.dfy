/** WHERE conditions: each comparison scans the table into an ordered set of row ids, and each connector
    merges the two sets of its operands. Columns hold 32-bit integers and no index is used. */
module Where {
  import opened BTreePages

  // ---------- Ordered sets of row ids ----------

  predicate Less(a: RowId, b: RowId) {
    a.pageId < b.pageId || (a.pageId == b.pageId && a.slot < b.slot)
  }

  /** Row ids are in a strict total order: by page, and on one page by slot. */
  lemma RowIdOrder(a: RowId, b: RowId)
    ensures a.pageId < b.pageId ==> Less(a, b)
    ensures a.pageId == b.pageId ==> (Less(a, b) <==> a.slot < b.slot)
    ensures a == b || (Less(a, b) <==> !Less(b, a))
  {
  }

  /** A std::set is its elements in iteration order. */
  predicate Ascending(s: seq<RowId>) {
    forall i, j :: 0 <= i < j < |s| ==> Less(s[i], s[j])
  }

  ghost function Members(s: seq<RowId>): set<RowId> {
    set x | x in s
  }

  function SetInsert(s: seq<RowId>, x: RowId): seq<RowId> {
    if s == [] || Less(x, s[0]) then [x] + s else if s[0] == x then s else [s[0]] + SetInsert(s[1..], x)
  }

  lemma {:induction false} SetInsertMembers(s: seq<RowId>, x: RowId)
    ensures Members(SetInsert(s, x)) == Members(s) + {x}
  {
    if !(s == [] || Less(x, s[0]) || s[0] == x) {
      SetInsertMembers(s[1..], x);
      assert s == [s[0]] + s[1..];
      assert Members(s) == {s[0]} + Members(s[1..]);
      assert Members([s[0]] + SetInsert(s[1..], x)) == {s[0]} + Members(SetInsert(s[1..], x));
    }
  }

  lemma AscendingFrom(x: RowId, s: seq<RowId>)
    requires Ascending(s) && forall y :: y in Members(s) ==> Less(x, y)
    ensures Ascending([x] + s)
  {
  }

  lemma {:induction false} SetInsertOk(s: seq<RowId>, x: RowId)
    requires Ascending(s)
    ensures Ascending(SetInsert(s, x)) && Members(SetInsert(s, x)) == Members(s) + {x}
  {
    SetInsertMembers(s, x);
    if s != [] {
      var t := s[1..];
      assert forall y :: y in Members(t) ==> Less(s[0], y);
      if Less(x, s[0]) {
        assert forall y :: y in Members(s) ==> y == s[0] || y in Members(t);
        AscendingFrom(x, s);
      } else if s[0] != x {
        SetInsertOk(t, x);
        AscendingFrom(s[0], SetInsert(t, x));
      }
    }
  }

  // ---------- The merges ----------

  /** Everything already passed in one set comes before everything still ahead in the other. */
  ghost predicate Apart(a: seq<RowId>, i: int, b: seq<RowId>, j: int)
    requires 0 <= i <= |a| && 0 <= j <= |b|
  {
    && (forall m, n :: 0 <= m < i && j <= n < |b| ==> Less(a[m], b[n]))
    && (forall m, n :: 0 <= n < j && i <= m < |a| ==> Less(b[n], a[m]))
  }

  lemma Advance(a: seq<RowId>, i: int, b: seq<RowId>, j: int)
    requires Ascending(a) && Ascending(b) && 0 <= i < |a| && 0 <= j <= |b| && Apart(a, i, b, j)
    requires j == |b| || Less(a[i], b[j])
    ensures Apart(a, i + 1, b, j)
  {
  }

  lemma AdvanceBoth(a: seq<RowId>, i: int, b: seq<RowId>, j: int)
    requires Ascending(a) && Ascending(b) && 0 <= i < |a| && 0 <= j < |b| && Apart(a, i, b, j) && a[i] == b[j]
    ensures Apart(a, i + 1, b, j + 1)
  {
  }

  lemma MembersNext(s: seq<RowId>, i: int)
    requires 0 <= i < |s|
    ensures Members(s[..i + 1]) == Members(s[..i]) + {s[i]}
  {
  }

  /** What is passed in one set is not ahead in the other. */
  lemma NotAhead(a: seq<RowId>, i: int, b: seq<RowId>, j: int)
    requires Ascending(a) && Ascending(b) && 0 <= i < |a| && 0 <= j <= |b| && Apart(a, i, b, j)
    requires j == |b| || Less(a[i], b[j])
    ensures a[i] !in Members(b[..j])
  {
  }

  /** The "and" merge of any two sets is their intersection. */
  method AndMerge(a: seq<RowId>, b: seq<RowId>) returns (r: seq<RowId>)
    requires Ascending(a) && Ascending(b)
    ensures Ascending(r) && Members(r) == Members(a) * Members(b)
  {
    r := [];
    var i, j := 0, 0;
    while i < |a| || j < |b|
      invariant 0 <= i <= |a| && 0 <= j <= |b| && Ascending(r) && Apart(a, i, b, j)
      invariant Members(r) == Members(a[..i]) * Members(b[..j])
      decreases |a| - i + |b| - j
    {
      if i == |a| {
        MembersNext(b, j);
        NotAhead(b, j, a, i);
        Advance(b, j, a, i);
        j := j + 1;
      } else if j == |b| {
        MembersNext(a, i);
        NotAhead(a, i, b, j);
        Advance(a, i, b, j);
        i := i + 1;
      } else if a[i] == b[j] {
        SetInsertOk(r, a[i]);
        AdvanceBoth(a, i, b, j);
        MembersNext(a, i);
        MembersNext(b, j);
        SharedNext(a, i, b, j);
        r := SetInsert(r, a[i]);
        i, j := i + 1, j + 1;
      } else if Less(a[i], b[j]) {
        MembersNext(a, i);
        NotAhead(a, i, b, j);
        Advance(a, i, b, j);
        i := i + 1;
      } else {
        MembersNext(b, j);
        NotAhead(b, j, a, i);
        Advance(b, j, a, i);
        j := j + 1;
      }
    }
    assert a[..i] == a && b[..j] == b;
  }

  lemma SharedNext(a: seq<RowId>, i: int, b: seq<RowId>, j: int)
    requires 0 <= i < |a| && 0 <= j < |b| && a[i] == b[j] && Apart(a, i, b, j)
    ensures Members(a[..i + 1]) * Members(b[..j + 1]) == Members(a[..i]) * Members(b[..j]) + {a[i]}
  {
  }

  datatype Merged = Done(rids: seq<RowId>) | ReadPastEnd

  /** Some member of `b` is at least as large as every member of `a`, or `a` is empty. */
  ghost predicate Covers(a: set<RowId>, b: set<RowId>) {
    a == {} || exists y :: y in b && forall x :: x in a ==> !Less(y, x)
  }

  /** The "or" merge yields the union exactly when the first set is empty or its largest member is at most
      the second's; otherwise it reads the second set past its end. */
  method OrMerge(a: seq<RowId>, b: seq<RowId>) returns (r: Merged)
    requires Ascending(a) && Ascending(b)
    ensures r.Done? <==> Covers(Members(a), Members(b))
    ensures r.Done? ==> Ascending(r.rids) && Members(r.rids) == Members(a) + Members(b)
  {
    var out := [];
    var i, j := 0, 0;
    while i < |a| || j < |b|
      invariant OrSoFar(a, i, b, j, out)
      decreases |a| - i + |b| - j
    {
      if i < |a| && j == |b| {
        NotCovered(a, i, b);
        return ReadPastEnd;
      }
      if i == |a| || Less(b[j], a[i]) {
        OrSecond(a, i, b, j, out);
        out := SetInsert(out, b[j]);
        j := j + 1;
      } else if Less(a[i], b[j]) {
        OrFirst(a, i, b, j, out);
        out := SetInsert(out, a[i]);
        i := i + 1;
      } else {
        OrBoth(a, i, b, j, out);
        out := SetInsert(out, a[i]);
        i, j := i + 1, j + 1;
      }
    }
    assert a[..i] == a && b[..j] == b;
    LastCovers(a, b);
    r := Done(out);
  }

  /** The loop's state: i and j members are behind, and `out` holds them. */
  ghost predicate OrSoFar(a: seq<RowId>, i: int, b: seq<RowId>, j: int, out: seq<RowId>) {
    && 0 <= i <= |a| && 0 <= j <= |b| && Ascending(out) && Apart(a, i, b, j)
    && Members(out) == Members(a[..i]) + Members(b[..j])
    && (i > 0 ==> b != [] && !Less(b[|b| - 1], a[i - 1]))
  }

  lemma OrSecond(a: seq<RowId>, i: int, b: seq<RowId>, j: int, out: seq<RowId>)
    requires Ascending(a) && Ascending(b) && OrSoFar(a, i, b, j, out) && j < |b| && (i == |a| || Less(b[j], a[i]))
    ensures OrSoFar(a, i, b, j + 1, SetInsert(out, b[j]))
  {
    UnionNext(out, b, j, Members(a[..i]));
    Advance(b, j, a, i);
  }

  lemma OrFirst(a: seq<RowId>, i: int, b: seq<RowId>, j: int, out: seq<RowId>)
    requires Ascending(a) && Ascending(b) && OrSoFar(a, i, b, j, out) && i < |a| && j < |b| && Less(a[i], b[j])
    ensures OrSoFar(a, i + 1, b, j, SetInsert(out, a[i]))
  {
    UnionNext(out, a, i, Members(b[..j]));
    Advance(a, i, b, j);
    BelowLast(b, j, a[i]);
  }

  lemma OrBoth(a: seq<RowId>, i: int, b: seq<RowId>, j: int, out: seq<RowId>)
    requires Ascending(a) && Ascending(b) && OrSoFar(a, i, b, j, out) && i < |a| && j < |b| && a[i] == b[j]
    ensures OrSoFar(a, i + 1, b, j + 1, SetInsert(out, a[i]))
  {
    UnionNext(out, a, i, Members(b[..j]));
    MembersNext(b, j);
    AdvanceBoth(a, i, b, j);
    BelowLast(b, j, a[i]);
  }

  /** The union so far takes in the next member of `a`. */
  lemma UnionNext(out: seq<RowId>, a: seq<RowId>, i: int, b: set<RowId>)
    requires Ascending(out) && 0 <= i < |a| && Members(out) == Members(a[..i]) + b
    ensures Ascending(SetInsert(out, a[i])) && Members(SetInsert(out, a[i])) == Members(a[..i + 1]) + b
  {
    SetInsertOk(out, a[i]);
    MembersNext(a, i);
  }

  lemma BelowLast(s: seq<RowId>, j: int, x: RowId)
    requires Ascending(s) && 0 <= j < |s| && !Less(s[j], x)
    ensures !Less(s[|s| - 1], x)
  {
  }

  lemma NotCovered(a: seq<RowId>, i: int, b: seq<RowId>)
    requires 0 <= i < |a| && Apart(a, i, b, |b|)
    ensures !Covers(Members(a), Members(b))
  {
    assert a[i] in Members(a);
    forall y | y in Members(b) ensures Less(y, a[i]) {
      var n :| 0 <= n < |b| && b[n] == y;
    }
  }

  lemma LastCovers(a: seq<RowId>, b: seq<RowId>)
    requires Ascending(a) && (a != [] ==> b != [] && !Less(b[|b| - 1], a[|a| - 1]))
    ensures Covers(Members(a), Members(b))
  {
    if a != [] {
      var y := b[|b| - 1];
      assert y in Members(b);
      forall x | x in Members(a) ensures !Less(y, x) {
        var m :| 0 <= m < |a| && a[m] == x;
        assert m == |a| - 1 || Less(a[m], a[|a| - 1]);
      }
    } else {
      assert Members(a) == {};
    }
  }

  // ---------- Conditions ----------

  datatype Condition =
    | Compare(op: string, column: string, value: int)
    | Connector(name: string, left: Condition, right: Condition)
    | OtherNode

  datatype TableRow = TableRow(rid: RowId, values: seq<int>)

  datatype Code = Success | ColumnNameNotExist | Failed | Undefined

  datatype Table = Table(columns: seq<string>, rows: seq<TableRow>)

  ghost predicate TableOk(t: Table) {
    && (forall i :: 0 <= i < |t.rows| ==> |t.rows[i].values| == |t.columns|)
    && (forall i, j :: 0 <= i < j < |t.rows| ==> t.rows[i].rid != t.rows[j].rid)
  }

  /** What the comparison means; an operator the engine does not know selects nothing. */
  predicate Holds(op: string, x: int, y: int) {
    if op == "=" then x == y
    else if op == "<" then x < y
    else if op == "<=" then x <= y
    else if op == ">" then x > y
    else if op == ">=" then x >= y
    else op == "<>" && x != y
  }

  function ColumnIndex(columns: seq<string>, name: string): int {
    if columns == [] then 0 else if columns[0] == name then 0 else 1 + ColumnIndex(columns[1..], name)
  }

  /** The row satisfies the condition. */
  predicate Satisfies(columns: seq<string>, values: seq<int>, c: Condition) {
    match c
    case Compare(op, column, value) =>
      var i := ColumnIndex(columns, column);
      0 <= i < |values| && Holds(op, values[i], value)
    case Connector(name, l, r) =>
      if name == "and" then Satisfies(columns, values, l) && Satisfies(columns, values, r)
      else name == "or" && (Satisfies(columns, values, l) || Satisfies(columns, values, r))
    case OtherNode => false
  }

  /** The row ids of the rows that satisfy the condition. */
  ghost function Selection(t: Table, c: Condition): set<RowId> {
    set i | 0 <= i < |t.rows| && Satisfies(t.columns, t.rows[i].values, c) :: t.rows[i].rid
  }

  /** How execution ends: the leftmost failure, or an "or" whose first operand reaches beyond its second. */
  ghost function CodeOf(t: Table, c: Condition): Code {
    match c
    case Compare(op, column, value) =>
      if column !in t.columns then ColumnNameNotExist else if op == "is" || op == "not" then Failed else Success
    case Connector(name, l, r) =>
      if CodeOf(t, l) != Success then CodeOf(t, l)
      else if CodeOf(t, r) != Success then CodeOf(t, r)
      else if name == "or" && !Covers(Selection(t, l), Selection(t, r)) then Undefined
      else Success
    case OtherNode => Failed
  }

  // ---------- What each operator selects ----------

  /** Whether a value x is selected by "op n", operator by operator. */
  ghost predicate Agrees(op: string, x: int, n: int, selected: bool) {
    && (op == "=" ==> (selected <==> x == n))
    && (op == "<" ==> (selected <==> x < n))
    && (op == "<=" ==> (selected <==> x <= n))
    && (op == ">" ==> (selected <==> x > n))
    && (op == ">=" ==> (selected <==> x >= n))
    && (op == "<>" ==> (selected <==> x != n))
    && (op !in {"=", "<", "<=", ">", ">=", "<>"} ==> !selected)
  }

  /** Column j is the first of that name. */
  predicate ColumnAt(columns: seq<string>, name: string, j: int) {
    0 <= j < |columns| && columns[j] == name && name !in columns[..j]
  }

  /** The row ids in `s` are those of the rows whose own value in the named column is selected. */
  ghost predicate Picks(t: Table, op: string, column: string, n: int, s: set<RowId>)
    requires TableOk(t)
  {
    && (forall i, j :: 0 <= i < |t.rows| && ColumnAt(t.columns, column, j) ==>
      Agrees(op, t.rows[i].values[j], n, t.rows[i].rid in s))
    && forall rid :: rid in s ==> exists i :: 0 <= i < |t.rows| && t.rows[i].rid == rid
  }

  lemma {:induction false} ColumnIndexAt(columns: seq<string>, name: string, j: int)
    requires ColumnAt(columns, name, j)
    ensures ColumnIndex(columns, name) == j
  {
    if j > 0 {
      assert columns[..j] == [columns[0]] + columns[1..][..j - 1];
      ColumnIndexAt(columns[1..], name, j - 1);
    }
  }

  lemma OperatorSelects(t: Table, op: string, column: string, n: int)
    requires TableOk(t)
    ensures Picks(t, op, column, n, Selection(t, Compare(op, column, n)))
  {
    var c := Compare(op, column, n);
    forall i, j | 0 <= i < |t.rows| && ColumnAt(t.columns, column, j)
      ensures Agrees(op, t.rows[i].values[j], n, t.rows[i].rid in Selection(t, c))
    {
      ColumnIndexAt(t.columns, column, j);
      SelectedRow(t, c, i);
    }
  }

  lemma SelectedRow(t: Table, c: Condition, i: int)
    requires TableOk(t) && 0 <= i < |t.rows|
    ensures t.rows[i].rid in Selection(t, c) <==> Satisfies(t.columns, t.rows[i].values, c)
  {
  }

  /** "<", "=" and ">" share out the rows, and the other operators select the matching unions. */
  lemma OperatorsShareOut(t: Table, column: string, n: int, below: set<RowId>, equal: set<RowId>, above: set<RowId>)
    requires TableOk(t) && column in t.columns
    requires below == Selection(t, Compare("<", column, n)) && equal == Selection(t, Compare("=", column, n))
    requires above == Selection(t, Compare(">", column, n))
    ensures below !! equal && below !! above && equal !! above
    ensures below + equal + above == set i | 0 <= i < |t.rows| :: t.rows[i].rid
    ensures Selection(t, Compare("<=", column, n)) == below + equal
    ensures Selection(t, Compare(">=", column, n)) == equal + above
    ensures Selection(t, Compare("<>", column, n)) == below + above
  {
    UnionSelects(t, column, n, "<", "=", "<=");
    UnionSelects(t, column, n, "=", ">", ">=");
    UnionSelects(t, column, n, "<", ">", "<>");
    ApartSelect(t, column, n, "<", "=");
    ApartSelect(t, column, n, "<", ">");
    ApartSelect(t, column, n, "=", ">");
    forall i | 0 <= i < |t.rows| ensures t.rows[i].rid in below + equal + above {
      ColumnIndexFinds(t.columns, column);
      SelectedRow(t, Compare("<", column, n), i);
      SelectedRow(t, Compare("=", column, n), i);
      SelectedRow(t, Compare(">", column, n), i);
    }
  }

  lemma UnionSelects(t: Table, column: string, n: int, op1: string, op2: string, op: string)
    requires TableOk(t) && forall x :: Holds(op, x, n) <==> Holds(op1, x, n) || Holds(op2, x, n)
    ensures Selection(t, Compare(op, column, n))
      == Selection(t, Compare(op1, column, n)) + Selection(t, Compare(op2, column, n))
  {
  }

  lemma ApartSelect(t: Table, column: string, n: int, op1: string, op2: string)
    requires TableOk(t) && forall x :: !(Holds(op1, x, n) && Holds(op2, x, n))
    ensures Selection(t, Compare(op1, column, n)) !! Selection(t, Compare(op2, column, n))
  {
    forall i | 0 <= i < |t.rows|
      ensures !(t.rows[i].rid in Selection(t, Compare(op1, column, n))
        && t.rows[i].rid in Selection(t, Compare(op2, column, n)))
    {
      SelectedRow(t, Compare(op1, column, n), i);
      SelectedRow(t, Compare(op2, column, n), i);
    }
  }

  /** Raising the bound only adds rows to "<" and only takes rows from ">". */
  lemma RaisedBound(t: Table, column: string, m: int, n: int)
    requires TableOk(t) && m <= n
    ensures Selection(t, Compare("<", column, m)) <= Selection(t, Compare("<", column, n))
    ensures Selection(t, Compare(">", column, n)) <= Selection(t, Compare(">", column, m))
  {
  }

  predicate OnlyAnds(c: Condition) {
    c.Connector? ==> c.name == "and" && OnlyAnds(c.left) && OnlyAnds(c.right)
  }

  /** Every column named is in the table, and every node is one the executor accepts. */
  predicate WellNamed(t: Table, c: Condition) {
    match c
    case Compare(op, column, _) => column in t.columns && op != "is" && op != "not"
    case Connector(_, l, r) => WellNamed(t, l) && WellNamed(t, r)
    case OtherNode => false
  }

  /** A tree of "and"s over existing columns always succeeds. */
  lemma {:induction false} AndTreeSucceeds(t: Table, c: Condition)
    requires OnlyAnds(c)
    ensures CodeOf(t, c) == Success <==> WellNamed(t, c)
  {
    if c.Connector? {
      AndTreeSucceeds(t, c.left);
      AndTreeSucceeds(t, c.right);
    }
  }

  /** Two rows and "x = 9 or x = 5": the first operand's row id is the larger, and the merge runs off the
      end of the second set although both rows satisfy the condition. */
  lemma LargerFirstOperand(t: Table, l: Condition, r: Condition)
    requires t == Table(["x"], [TableRow(RowId(2, 0), [5]), TableRow(RowId(2, 1), [9])])
    requires l == Compare("=", "x", 9) && r == Compare("=", "x", 5)
    ensures TableOk(t) && CodeOf(t, Connector("or", l, r)) == Undefined
    ensures Selection(t, Connector("or", l, r)) == {RowId(2, 0), RowId(2, 1)}
  {
    var high := RowId(2, 1);
    EqualRows(t, l, 9);
    EqualRows(t, r, 5);
    ConnectorSelects(t, Connector("or", l, r));
    assert high in Selection(t, l) && Less(RowId(2, 0), high);
    assert !Covers(Selection(t, l), Selection(t, r));
  }

  lemma EqualRows(t: Table, c: Condition, n: int)
    requires t == Table(["x"], [TableRow(RowId(2, 0), [5]), TableRow(RowId(2, 1), [9])])
    requires c == Compare("=", "x", n)
    ensures TableOk(t)
    ensures Selection(t, c) == (if n == 5 then {RowId(2, 0)} else {}) + (if n == 9 then {RowId(2, 1)} else {})
  {
    assert ColumnIndex(t.columns, "x") == 0;
    assert t.rows[0].values == [5] && t.rows[1].values == [9];
    assert forall i :: 0 <= i < |t.rows| ==> (Satisfies(t.columns, t.rows[i].values, c) <==> t.rows[i].values[0] == n);
  }

  /** Selecting by a connector combines the selections of its operands. */
  lemma ConnectorSelects(t: Table, c: Condition)
    requires TableOk(t) && c.Connector?
    ensures c.name == "and" ==> Selection(t, c) == Selection(t, c.left) * Selection(t, c.right)
    ensures c.name == "or" ==> Selection(t, c) == Selection(t, c.left) + Selection(t, c.right)
    ensures c.name != "and" && c.name != "or" ==> Selection(t, c) == {}
  {
  }

  lemma {:induction false} ColumnIndexFinds(columns: seq<string>, name: string)
    ensures 0 <= ColumnIndex(columns, name) <= |columns|
    ensures name in columns <==> ColumnIndex(columns, name) < |columns|
    ensures name in columns ==>
      columns[ColumnIndex(columns, name)] == name && name !in columns[..ColumnIndex(columns, name)]
  {
    if columns != [] && columns[0] != name {
      var rest := columns[1..];
      ColumnIndexFinds(rest, name);
      var k := ColumnIndex(rest, name);
      assert columns[..k + 1] == [columns[0]] + rest[..k];
    }
  }

  class ExecuteContext {
    const table: Table
    var result: seq<RowId>

    constructor (t: Table)
      ensures table == t && result == []
    {
      table := t;
      result := [];
    }

    method GetColumnIndex(name: string) returns (found: bool, index: int)
      ensures found <==> name in table.columns
      ensures found ==> index == ColumnIndex(table.columns, name) && 0 <= index < |table.columns|
    {
      var i := 0;
      ColumnIndexFinds(table.columns, name);
      while i < |table.columns|
        invariant 0 <= i <= |table.columns| && name !in table.columns[..i]
      {
        if table.columns[i] == name {
          assert i == ColumnIndex(table.columns, name);
          return true, i;
        }
        i := i + 1;
      }
      return false, 0;
    }

    /** One comparison: scans all rows. */
    method ExecuteCompareOperator(op: string, column: string, value: int) returns (code: Code)
      requires TableOk(table)
      modifies this`result
      ensures code == CodeOf(table, Compare(op, column, value))
      ensures code == Success ==> Ascending(result) && Members(result) == Selection(table, Compare(op, column, value))
      ensures code == Success ==> Picks(table, op, column, value, Members(result))
    {
      result := [];
      var found, index := GetColumnIndex(column);
      if !found {
        return ColumnNameNotExist;
      }
      if op == "is" || op == "not" {
        return Failed;
      }
      var k := 0;
      ghost var c := Compare(op, column, value);
      while k < |table.rows|
        invariant 0 <= k <= |table.rows| && Ascending(result)
        invariant Members(result) == Selection(table.(rows := table.rows[..k]), c)
      {
        var row := table.rows[k];
        SelectionNext(table, c, k);
        SetInsertOk(result, row.rid);
        if Holds(op, row.values[index], value) {
          result := SetInsert(result, row.rid);
        }
        k := k + 1;
      }
      assert table.rows[..k] == table.rows;
      OperatorSelects(table, op, column, value);
      return Success;
    }

    /** Any condition: if execution succeeds, the result holds exactly the rows that satisfy the whole of it. */
    method ExecuteInternalNode(c: Condition) returns (code: Code)
      requires TableOk(table)
      modifies this`result
      ensures code == CodeOf(table, c)
      ensures code == Success ==> Ascending(result) && Members(result) == Selection(table, c)
      decreases c
    {
      match c
      case Compare(op, column, value) => code := ExecuteCompareOperator(op, column, value);
      case Connector(_, _, _) => code := ExecuteConnector(c);
      case OtherNode => code := Failed;
    }

    method ExecuteConnector(c: Condition) returns (code: Code)
      requires TableOk(table) && c.Connector?
      modifies this`result
      ensures code == CodeOf(table, c)
      ensures code == Success ==> Ascending(result) && Members(result) == Selection(table, c)
      decreases c, 0
    {
      ConnectorSelects(table, c);
      code := ExecuteInternalNode(c.left);
      if code != Success {
        return;
      }
      var first := result;
      code := ExecuteInternalNode(c.right);
      if code != Success {
        return;
      }
      var second := result;
      result := [];
      if c.name == "and" {
        result := AndMerge(first, second);
      } else if c.name == "or" {
        var merged := OrMerge(first, second);
        match merged
        case Done(rids) => result := rids;
        case ReadPastEnd => return Undefined;
      }
    }
  }

  lemma SelectionNext(t: Table, c: Condition, k: int)
    requires TableOk(t) && 0 <= k < |t.rows|
    ensures var more := if Satisfies(t.columns, t.rows[k].values, c) then {t.rows[k].rid} else {};
      Selection(t.(rows := t.rows[..k + 1]), c) == Selection(t.(rows := t.rows[..k]), c) + more
  {
  }
}
