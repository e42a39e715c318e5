/** Index keys: rows encoded into a fixed number of bytes, padded with zeroes and compared as signed bytes. */
module IndexKeys {
  import opened SlottedLayout
  import opened SlottedPage
  import opened RowCodec

  function Zeros(n: nat): (r: seq<byte>)
    ensures |r| == n
  {
    seq(n, _ => 0)
  }

  /** The key of a row that fits into n bytes. */
  function KeyBytes(row: seq<Field>, n: nat): (r: seq<byte>)
    requires RowOk(row) && |EncodeRow(row)| <= n
    ensures |r| == n
  {
    EncodeRow(row) + Zeros(n - |EncodeRow(row)|)
  }

  method SerializeFromKey(row: seq<Field>, n: nat) returns (key: array<byte>)
    requires RowOk(row) && |EncodeRow(row)| <= n
    ensures fresh(key) && key[..] == KeyBytes(row, n)
  {
    key := new byte[n](_ => 0);
    var ofs := SerializeTo(row, key, 0);
  }

  /** The padded key of a row decodes to the row. */
  lemma KeyRoundTrip(row: seq<Field>, n: nat)
    requires RowOk(row) && Storable(row) && |EncodeRow(row)| <= n
    ensures DecodeRow(Types(row), KeyBytes(row, n)) == Parsed.Parsed(row, |EncodeRow(row)|)
  {
    KeptRowRoundTrip(row, Zeros(n - |EncodeRow(row)|));
  }

  /** Different rows of one schema have different keys. */
  lemma KeyInjective(a: seq<Field>, b: seq<Field>, n: nat)
    requires RowOk(a) && RowOk(b) && Storable(a) && Storable(b) && Types(a) == Types(b)
    requires |EncodeRow(a)| <= n && |EncodeRow(b)| <= n
    ensures KeyBytes(a, n) == KeyBytes(b, n) <==> a == b
  {
    KeyRoundTrip(a, n);
    KeyRoundTrip(b, n);
  }

  // ---------- The order ----------

  /** The byte read as a C++ `char`. */
  function AsChar(b: byte): int {
    if b < 128 then b else b - 256
  }

  /** A key as a number whose digits, most significant first, are its bytes in the order of signed chars. */
  function Rank(key: seq<byte>): (r: int)
    ensures r >= 0
  {
    if key == [] then 0 else 256 * Rank(key[..|key| - 1]) + (AsChar(key[|key| - 1]) + 128)
  }

  /** The keys agree below i, and there the first one's char is smaller. */
  predicate SmallerAt(a: seq<byte>, b: seq<byte>, i: int) {
    0 <= i < |a| && i < |b| && a[..i] == b[..i] && AsChar(a[i]) < AsChar(b[i])
  }

  lemma {:induction false} SmallerRanks(a: seq<byte>, b: seq<byte>, i: int)
    requires |a| == |b| && SmallerAt(a, b, i)
    ensures Rank(a) < Rank(b)
  {
    var n := |a| - 1;
    if i < n {
      assert a[..n][..i] == a[..i] && b[..n][..i] == b[..i];
      SmallerRanks(a[..n], b[..n], i);
    }
  }

  /** GenericComparator: 0 exactly on equal keys, and otherwise the order of the first differing chars, which
      is the order of the keys' ranks; ranks being integers, this is a total order. */
  method Compare(a: array<byte>, b: array<byte>) returns (r: int)
    requires a.Length == b.Length
    ensures -1 <= r <= 1 && (r == 0 <==> a[..] == b[..])
    ensures r < 0 <==> exists i :: SmallerAt(a[..], b[..], i)
    ensures r > 0 <==> exists i :: SmallerAt(b[..], a[..], i)
    ensures (r < 0 <==> Rank(a[..]) < Rank(b[..])) && (r > 0 <==> Rank(a[..]) > Rank(b[..]))
  {
    var i := 0;
    while i < a.Length
      invariant 0 <= i <= a.Length && a[..i] == b[..i]
    {
      if a[i] != b[i] {
        Decided(a[..], b[..], i);
        if AsChar(a[i]) < AsChar(b[i]) {
          return -1;
        } else {
          return 1;
        }
      }
      i := i + 1;
    }
    assert a[..] == b[..];
    return 0;
  }

  /** The first difference decides. */
  lemma Decided(a: seq<byte>, b: seq<byte>, i: int)
    requires |a| == |b| && 0 <= i < |a| && a[..i] == b[..i] && a[i] != b[i]
    ensures a != b
    ensures AsChar(a[i]) < AsChar(b[i]) ==> SmallerAt(a, b, i) && Rank(a) < Rank(b) && forall j :: !SmallerAt(b, a, j)
    ensures AsChar(a[i]) > AsChar(b[i]) ==> SmallerAt(b, a, i) && Rank(b) < Rank(a) && forall j :: !SmallerAt(a, b, j)
  {
    if AsChar(a[i]) < AsChar(b[i]) {
      NotBothWays(a, b, i);
    } else {
      NotBothWays(b, a, i);
    }
  }

  lemma NotBothWays(a: seq<byte>, b: seq<byte>, i: int)
    requires |a| == |b| && SmallerAt(a, b, i)
    ensures Rank(a) < Rank(b) && forall j :: !SmallerAt(b, a, j)
  {
  }

  /** Keys of one length have different ranks, so a tree over ranks is a tree over keys. */
  lemma {:induction false} RankInjective(a: seq<byte>, b: seq<byte>)
    requires |a| == |b|
    ensures Rank(a) == Rank(b) <==> a == b
  {
    if a != [] {
      var n := |a| - 1;
      RankInjective(a[..n], b[..n]);
      assert a == a[..n] + [a[n]] && b == b[..n] + [b[n]];
    }
  }

  // ---------- Keys of one integer ----------

  /** The rank of the four-byte key of an integer. */
  function IntRank(a: int): int
    requires -0x8000_0000 <= a < 0x8000_0000
  {
    Rank(KeyBytes([IntField(a)], 4))
  }

  /** The first byte of an integer's key, as a char, is the integer's distance from the nearest multiple of 256. */
  lemma LowChar(a: int)
    requires -0x8000_0000 <= a < 0x8000_0000
    ensures var key := KeyBytes([IntField(a)], 4); |key| == 4 && AsChar(key[0]) == a - 256 * ((a + 128) / 256)
  {
    FirstByte(a);
    NearestMultiple(a);
  }

  lemma FirstByte(a: int)
    requires -0x8000_0000 <= a < 0x8000_0000
    ensures var key := KeyBytes([IntField(a)], 4); |key| == 4 && key[0] == Unsigned(a) % 0x100
  {
  }

  lemma NearestMultiple(a: int)
    ensures Unsigned(a) % 0x100 == a % 256
    ensures a % 256 < 128 ==> (a + 128) / 256 == a / 256
    ensures a % 256 >= 128 ==> (a + 128) / 256 == a / 256 + 1
    ensures a == 256 * (a / 256) + a % 256
  {
  }

  lemma CharDecides(a: int, b: int)
    requires -0x8000_0000 <= a < 0x8000_0000 && -0x8000_0000 <= b < 0x8000_0000
    requires a - 256 * ((a + 128) / 256) < b - 256 * ((b + 128) / 256)
    ensures IntRank(a) < IntRank(b)
  {
    LowChar(a);
    LowChar(b);
    SmallerRanks(KeyBytes([IntField(a)], 4), KeyBytes([IntField(b)], 4), 0);
  }

  /** Keys of the integers from m to n are in numeric order. */
  ghost predicate Numeric(m: int, n: int)
    requires -0x8000_0000 <= m <= n < 0x8000_0000
  {
    forall a, b :: m <= a < b <= n ==> IntRank(a) < IntRank(b)
  }

  /** The order of keys is the order of the numbers on an interval exactly when its ends are nearest to the
      same multiple of 256. */
  lemma NumericIff(m: int, n: int)
    requires -0x8000_0000 <= m <= n < 0x8000_0000
    ensures Numeric(m, n) <==> (m + 128) / 256 == (n + 128) / 256
  {
    if (m + 128) / 256 == (n + 128) / 256 {
      forall a, b | m <= a < b <= n ensures IntRank(a) < IntRank(b) {
        assert (a + 128) / 256 == (m + 128) / 256 && (b + 128) / 256 == (m + 128) / 256;
        CharDecides(a, b);
      }
    } else {
      var b := 256 * ((n + 128) / 256) - 128;
      assert m <= b - 1 < b <= n;
      assert (b + 128) / 256 == (n + 128) / 256 && (b - 1 + 128) / 256 == (n + 128) / 256 - 1;
      CharDecides(b, b - 1);
      assert IntRank(b) < IntRank(b - 1);
    }
  }

  /** An instance: the key of 1 comes after that of 256. */
  lemma OrderIsNotNumeric()
    ensures IntRank(256) < IntRank(1) && !Numeric(1, 256)
  {
    CharDecides(256, 1);
    NumericIff(1, 256);
  }
}
