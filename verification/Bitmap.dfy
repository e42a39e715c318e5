/** The free-page bitmap of one extent: a page of bytes whose first eight are unused header, each later bit
    telling whether one page is taken. Bit 0 of a byte is its highest. */
module Bitmap {

  const HEADER := 8

  type Bytes = seq<bv8>

  /** How many pages a bitmap page of this many bytes records. */
  function Capacity(data: Bytes): int {
    8 * (|data| - 8)
  }

  function Mask(j: int): bv8
    requires 0 <= j < 8
  {
    if j == 0 then 0x80 else if j == 1 then 0x40 else if j == 2 then 0x20 else if j == 3 then 0x10
    else if j == 4 then 0x08 else if j == 5 then 0x04 else if j == 6 then 0x02 else 0x01
  }

  function Unmask(j: int): bv8
    requires 0 <= j < 8
  {
    if j == 0 then 0x7F else if j == 1 then 0xBF else if j == 2 then 0xDF else if j == 3 then 0xEF
    else if j == 4 then 0xF7 else if j == 5 then 0xFB else if j == 6 then 0xFD else 0xFE
  }

  predicate BitOf(b: bv8, j: int)
    requires 0 <= j < 8
  {
    b & Mask(j) != 0
  }

  /** The page at this offset is taken. */
  predicate Bit(data: Bytes, k: int)
    requires 0 <= k < Capacity(data)
  {
    BitOf(data[8 + k / 8], k % 8)
  }

  ghost function Taken(data: Bytes): set<int> {
    set k | 0 <= k < Capacity(data) && Bit(data, k)
  }

  /** Byte b2 has exactly bit j of b changed, to `on`. */
  ghost predicate Changed(b: bv8, j: int, on: bool, b2: bv8)
    requires 0 <= j < 8
  {
    forall i :: 0 <= i < 8 ==> (BitOf(b2, i) <==> if i == j then on else BitOf(b, i))
  }

  /** Bit 0 is the highest of the byte: shifted left j times, it is bit j that decides whether 0x80 is reached. */
  lemma HighestFirst(b: bv8, j: int)
    requires 0 <= j < 8
    ensures BitOf(b, j) <==> (b << j) >= 0x80
  {
    assert j == 0 || j == 1 || j == 2 || j == 3 || j == 4 || j == 5 || j == 6 || j == 7;
  }

  lemma SetOneBit(b: bv8, j: int)
    requires 0 <= j < 8
    ensures Changed(b, j, true, b | Mask(j))
  {
  }

  lemma ClearOneBit(b: bv8, j: int)
    requires 0 <= j < 8
    ensures Changed(b, j, false, b & Unmask(j))
  {
    forall i | 0 <= i < 8 ensures BitOf(b & Unmask(j), i) <==> i != j && BitOf(b, i) {
    }
  }

  lemma FullByte(b: bv8)
    ensures b ^ 0xFF == 0 <==> forall j :: 0 <= j < 8 ==> BitOf(b, j)
  {
    if forall j :: 0 <= j < 8 ==> BitOf(b, j) {
      assert BitOf(b, 0) && BitOf(b, 1) && BitOf(b, 2) && BitOf(b, 3) && BitOf(b, 4) && BitOf(b, 5) && BitOf(b, 6);
      assert BitOf(b, 7);
    }
  }

  lemma BitAfter(data: Bytes, k: int, b: bv8, on: bool, m: int)
    requires 0 <= k < Capacity(data) && 0 <= m < Capacity(data)
    requires Changed(data[8 + k / 8], k % 8, on, b)
    ensures Bit(data[8 + k / 8 := b], m) <==> if m == k then on else Bit(data, m)
  {
  }

  /** Rewriting one byte changes the one bit only. */
  lemma OneByte(data: Bytes, k: int, b: bv8, on: bool)
    requires 0 <= k < Capacity(data)
    requires Changed(data[8 + k / 8], k % 8, on, b)
    ensures Taken(data[8 + k / 8 := b]) == if on then Taken(data) + {k} else Taken(data) - {k}
  {
    forall m | 0 <= m < Capacity(data)
      ensures Bit(data[8 + k / 8 := b], m) <==> if m == k then on else Bit(data, m)
    {
      BitAfter(data, k, b, on, m);
    }
  }

  /** The byte of page k with that page's bit set, or cleared. */
  function ByteWith(data: Bytes, k: int, on: bool): bv8
    requires 0 <= k < Capacity(data)
  {
    if on then data[8 + k / 8] | Mask(k % 8) else data[8 + k / 8] & Unmask(k % 8)
  }

  lemma WithTaken(data: Bytes, k: int, on: bool)
    requires 0 <= k < Capacity(data)
    ensures Taken(data[8 + k / 8 := ByteWith(data, k, on)]) == if on then Taken(data) + {k} else Taken(data) - {k}
  {
    var b := data[8 + k / 8];
    var b2 := ByteWith(data, k, on);
    assert Changed(b, k % 8, on, b2) by {
      SetOneBit(b, k % 8);
      ClearOneBit(b, k % 8);
    }
    OneByte(data, k, b2, on);
  }

  /** A zeroed bitmap page has nothing taken. */
  lemma ZeroTaken(data: Bytes)
    requires forall i :: 0 <= i < |data| ==> data[i] == 0
    ensures Taken(data) == {}
  {
  }

  /** The least clear bit of a byte that is not full. */
  method FirstClear(b: bv8) returns (j: int)
    requires b ^ 0xFF != 0
    ensures 0 <= j < 8 && !BitOf(b, j)
    ensures forall m :: 0 <= m < j ==> BitOf(b, m)
  {
    FullByte(b);
    j := 0;
    while b & Mask(j) != 0
      invariant 0 <= j < 8
      invariant forall m :: 0 <= m < j ==> BitOf(b, m)
      decreases 8 - j
    {
      j := j + 1;
    }
  }

  lemma FullByteTaken(data: Bytes, i: int, b: bv8, upto: int)
    requires 0 <= i && 8 * i + upto <= Capacity(data) && 0 <= upto <= 8 && 8 + i < |data| && b == data[8 + i]
    requires forall j :: 0 <= j < upto ==> BitOf(b, j)
    requires forall k :: 0 <= k < 8 * i ==> k in Taken(data)
    ensures forall k :: 0 <= k < 8 * i + upto ==> k in Taken(data)
  {
  }

  class BitmapPage {
    const data: array<bv8>

    constructor (bytes: array<bv8>)
      ensures data == bytes
    {
      data := bytes;
    }

    /** First fit: takes the least free page, and fails only when every page is taken. */
    method AllocatePage() returns (ok: bool, offset: int)
      requires HEADER <= data.Length
      modifies data
      ensures ok <==> exists k :: 0 <= k < Capacity(old(data[..])) && k !in Taken(old(data[..]))
      ensures !ok ==> data[..] == old(data[..])
      ensures ok ==> 0 <= offset < Capacity(data[..]) && offset !in Taken(old(data[..]))
      ensures ok ==> forall k :: 0 <= k < offset ==> k in Taken(old(data[..]))
      ensures ok ==> Taken(data[..]) == Taken(old(data[..])) + {offset} && data[..8] == old(data[..8])
    {
      offset := 0;
      var i := 0;
      while i < data.Length - 8
        invariant 0 <= i <= data.Length - 8 && data[..] == old(data[..])
        invariant forall k :: 0 <= k < 8 * i ==> k in Taken(data[..])
      {
        assert data[..][8 + i] == data[8 + i];
        if data[8 + i] ^ 0xFF != 0 {
          var j := FirstClear(data[8 + i]);
          FullByteTaken(data[..], i, data[8 + i], j);
          offset := i * 8 + j;
          assert !Bit(data[..], offset);
          WriteBit(offset, true);
          return true, offset;
        }
        FullByte(data[8 + i]);
        FullByteTaken(data[..], i, data[8 + i], 8);
        i := i + 1;
      }
      return false, offset;
    }

    method WriteBit(k: int, on: bool)
      requires HEADER <= data.Length && 0 <= k < Capacity(data[..])
      modifies data
      ensures Taken(data[..]) == Taken(old(data[..])) + (if on then {k} else {}) - (if on then {} else {k})
      ensures data[..8] == old(data[..8])
    {
      ghost var before := data[..];
      WithTaken(before, k, on);
      var i := 8 + k / 8;
      data[i] := ByteWith(data[..], k, on);
      assert data[..] == before[i := ByteWith(before, k, on)];
    }

    method DeAllocatePage(offset: int) returns (ok: bool)
      requires HEADER <= data.Length && 0 <= offset
      modifies data
      ensures ok <==> offset in Taken(old(data[..]))
      ensures Taken(data[..]) == Taken(old(data[..])) - {offset} && data[..8] == old(data[..8])
    {
      ok := false;
      if offset < 8 * (data.Length - 8) {
        assert data[8 + offset / 8] == data[..][8 + offset / 8];
        if data[8 + offset / 8] & Mask(offset % 8) != 0 {
          WriteBit(offset, false);
          return true;
        }
      }
    }

    method IsPageFree(offset: int) returns (free: bool)
      requires HEADER <= data.Length && 0 <= offset
      ensures free <==> offset < Capacity(data[..]) && offset !in Taken(data[..])
    {
      if offset < 8 * (data.Length - 8) {
        assert data[8 + offset / 8] == data[..][8 + offset / 8];
        if data[8 + offset / 8] & Mask(offset % 8) == 0 {
          return true;
        }
      }
      return false;
    }
  }
}
