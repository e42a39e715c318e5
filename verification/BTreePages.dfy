/** The pages of the B+ tree index and the operations that work inside one page.
    A page header's id is the key under which the store keeps the page; `array_` of an
    internal page is held as two parallel sequences whose slot-0 key is never compared. */
module BTreePages {

  type PageId = int

  const INVALID_PAGE_ID: PageId := -1

  datatype RowId = RowId(pageId: int, slot: nat)

  datatype Entry = Entry(key: int, value: RowId)

  datatype Page =
    | Leaf(parent: PageId, next: PageId, items: seq<Entry>)
    | Inner(parent: PageId, keys: seq<int>, kids: seq<PageId>)
  {
    function Size(): nat {
      if Leaf? then |items| else |kids|
    }

    predicate IsRootPage() {
      parent == INVALID_PAGE_ID
    }
  }

  datatype Config = Config(leafMax: nat, innerMax: nat)
  {
    function MaxSize(pg: Page): nat {
      if pg.Leaf? then leafMax else innerMax
    }

    function MinSize(pg: Page): int {
      if pg.IsRootPage() then (if pg.Leaf? then 1 else 2)
      else if pg.Leaf? then leafMax / 2
      else (innerMax - 1) / 2 + 1
    }
  }

  ghost predicate Sorted(items: seq<Entry>) {
    forall i, j :: 0 <= i < j < |items| ==> items[i].key < items[j].key
  }

  /** Separators from slot 1 on increase strictly; slot 0 is not a separator. */
  ghost predicate SortedKeys(keys: seq<int>) {
    forall i, j :: 1 <= i < j < |keys| ==> keys[i] < keys[j]
  }

  ghost predicate Distinct(ids: seq<PageId>) {
    forall i, j :: 0 <= i < j < |ids| ==> ids[i] != ids[j]
  }

  /** Slot `i` of an internal page is the one whose separators enclose `key`. */
  ghost predicate Routes(keys: seq<int>, key: int, i: int) {
    && 0 <= i < |keys|
    && (i == 0 || keys[i] <= key)
    && (i + 1 == |keys| || key < keys[i + 1])
  }

  /** Slot `i` is one that a search for `key` can end in, whether or not the separators are in order. */
  ghost predicate MayPick(keys: seq<int>, key: int, i: int) {
    && 0 <= i < |keys|
    && (i == 0 || keys[i] <= key)
    && (i + 1 == |keys| || key < keys[i + 1] || (i > 0 && keys[i] == key))
  }

  function InsertAt<T>(a: seq<T>, at: nat, x: T): seq<T>
    requires at <= |a|
  {
    a[..at] + [x] + a[at..]
  }

  function RemoveAt<T>(a: seq<T>, at: nat): seq<T>
    requires at < |a|
  {
    a[..at] + a[at + 1..]
  }

  /** The first position of `x`. */
  function IndexOf(a: seq<PageId>, x: PageId): (r: nat)
    requires x in a
    ensures r < |a| && a[r] == x
    ensures forall j :: 0 <= j < r ==> a[j] != x
  {
    if a[0] == x then 0 else 1 + IndexOf(a[1..], x)
  }

  /** The loops that open a gap at `at` by moving the tail one slot up, then fill it. */
  method ShiftIn<T>(a: seq<T>, at: nat, x: T) returns (r: seq<T>)
    requires at <= |a|
    ensures r == InsertAt(a, at, x)
  {
    r := a + [x];
    var i := |a|;
    while i > at
      invariant at <= i <= |a| && |r| == |a| + 1
      invariant forall j :: 0 <= j < i ==> r[j] == a[j]
      invariant forall j :: i < j <= |a| ==> r[j] == a[j - 1]
    {
      r := r[i := r[i - 1]];
      i := i - 1;
    }
    r := r[at := x];
  }

  /** The loops that close the gap left by slot `at` by moving the tail one slot down. */
  method ShiftOut<T>(a: seq<T>, at: nat) returns (r: seq<T>)
    requires at < |a|
    ensures r == RemoveAt(a, at)
  {
    r := a;
    var i := at;
    while i < |a| - 1
      invariant at <= i <= |a| - 1 && |r| == |a|
      invariant forall j :: 0 <= j < at ==> r[j] == a[j]
      invariant forall j :: at <= j < i ==> r[j] == a[j + 1]
      invariant forall j :: i < j < |a| ==> r[j] == a[j]
    {
      r := r[i := r[i + 1]];
      i := i + 1;
    }
    r := r[..|a| - 1];
  }

  method ValueIndex(kids: seq<PageId>, value: PageId) returns (r: int)
    ensures value in kids ==> r == IndexOf(kids, value)
    ensures value !in kids ==> r == -1
  {
    var i := 0;
    while i < |kids|
      invariant 0 <= i <= |kids|
      invariant forall j :: 0 <= j < i ==> kids[j] != value
    {
      if kids[i] == value {
        return i;
      }
      i := i + 1;
    }
    return -1;
  }

  /** Binary search for the first slot of a leaf whose key is not below `key`. */
  method KeyIndex(items: seq<Entry>, key: int) returns (r: nat)
    requires Sorted(items)
    ensures r <= |items|
    ensures forall i :: 0 <= i < r ==> items[i].key < key
    ensures forall i :: r <= i < |items| ==> key <= items[i].key
  {
    var st, ed := 0, |items| - 1;
    while st <= ed
      invariant 0 <= st <= ed + 1 <= |items|
      invariant forall i :: 0 <= i < st ==> items[i].key < key
      invariant forall i :: ed < i < |items| ==> key <= items[i].key
      decreases ed + 1 - st
    {
      var mid := (ed - st) / 2 + st;
      if items[mid].key >= key {
        ed := mid - 1;
      } else {
        st := mid + 1;
      }
    }
    r := ed + 1;
  }

  /** `Lookup` of a leaf page: the entry under `key`, if the page holds one. */
  method LeafLookup(items: seq<Entry>, key: int) returns (found: bool, value: RowId)
    requires Sorted(items)
    ensures found ==> Entry(key, value) in items
    ensures !found ==> forall e :: e in items ==> e.key != key
  {
    var idx := KeyIndex(items, key);
    if idx < |items| && items[idx].key == key {
      return true, items[idx].value;
    }
    return false, RowId(INVALID_PAGE_ID, 0);
  }

  /** `Lookup` of an internal page. On a page with a single child the source compares with
      whatever `stale` bytes follow the page's last slot; the outcome does not depend on them. */
  method InnerLookup(keys: seq<int>, kids: seq<PageId>, key: int, stale: int) returns (i: nat)
    requires |keys| == |kids| >= 1
    ensures MayPick(keys, key, i)
    ensures SortedKeys(keys) ==> Routes(keys, key, i)
  {
    if key < (if |keys| > 1 then keys[1] else stale) {
      return 0;
    }
    if key >= keys[|keys| - 1] {
      return |keys| - 1;
    }
    var left, right := 1, |keys| - 1;
    while left <= right
      invariant 1 <= left <= right + 1 <= |keys|
      invariant left == 1 || keys[left - 1] < key
      invariant right + 1 == |keys| || key < keys[right + 1]
      decreases right + 1 - left
    {
      var mid := left + (right - left) / 2;
      if keys[mid] == key {
        return mid;
      }
      if keys[mid] < key {
        left := mid + 1;
      } else {
        right := mid - 1;
      }
    }
    return left - 1;
  }
}
