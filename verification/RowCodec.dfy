/** Rows as bytes: each field in turn, integers and floats in four bytes, character fields behind a
    four-byte length. Null fields write nothing and yet are always read back as present. */
module RowCodec {
  import opened SlottedLayout
  import opened SlottedPage

  const VARCHAR_MAX_LEN := 2048

  datatype TypeId = IntType | FloatType | CharType

  /** A float is kept as the bits of its representation. */
  datatype Field =
    | IntField(value: int)
    | FloatField(bits: int)
    | CharField(chars: seq<byte>)
    | NullField(nullType: TypeId)

  function TypeOf(f: Field): TypeId {
    match f
    case IntField(_) => IntType
    case FloatField(_) => FloatType
    case CharField(_) => CharType
    case NullField(t) => t
  }

  function Types(row: seq<Field>): (r: seq<TypeId>)
    ensures |r| == |row| && forall i :: 0 <= i < |row| ==> r[i] == TypeOf(row[i])
  {
    seq(|row|, i requires 0 <= i < |row| => TypeOf(row[i]))
  }

  /** The field's value fits its machine type. */
  predicate FieldOk(f: Field) {
    match f
    case IntField(i) => -0x8000_0000 <= i < 0x8000_0000
    case FloatField(bits) => 0 <= bits < 0x1_0000_0000
    case CharField(chars) => |chars| < 0x1_0000_0000
    case NullField(_) => true
  }

  predicate RowOk(row: seq<Field>) {
    forall i :: 0 <= i < |row| ==> FieldOk(row[i])
  }

  /** Not null, and short enough for a field that owns its characters. */
  predicate Kept(f: Field) {
    match f
    case CharField(chars) => |chars| < VARCHAR_MAX_LEN
    case NullField(_) => false
    case _ => true
  }

  predicate Storable(row: seq<Field>) {
    forall i :: 0 <= i < |row| ==> Kept(row[i])
  }

  // ---------- Encoding ----------

  function Unsigned(i: int): int {
    if i < 0 then i + 0x1_0000_0000 else i
  }

  function Signed(v: int): int {
    if v >= 0x8000_0000 then v - 0x1_0000_0000 else v
  }

  function EncodeField(f: Field): seq<byte>
    requires FieldOk(f)
  {
    match f
    case IntField(i) => Encode(Unsigned(i))
    case FloatField(bits) => Encode(bits)
    case CharField(chars) => Encode(|chars|) + chars
    case NullField(_) => []
  }

  function EncodeRow(row: seq<Field>): seq<byte>
    requires RowOk(row)
  {
    if row == [] then [] else EncodeField(row[0]) + EncodeRow(row[1..])
  }

  // ---------- Decoding ----------

  /** `used` bytes were read; Bad when a length is over the limit or the buffer ends first. */
  datatype Parsed<T> = Parsed(value: T, used: nat) | Bad

  function DecodeField(t: TypeId, b: seq<byte>): Parsed<Field> {
    if |b| < 4 then Bad
    else
      match t
      case IntType => Parsed.Parsed(IntField(Signed(Num(b[..4]))), 4)
      case FloatType => Parsed.Parsed(FloatField(Num(b[..4])), 4)
      case CharType =>
        var len := Num(b[..4]);
        if 0 <= len < VARCHAR_MAX_LEN && 4 + len <= |b| then Parsed.Parsed(CharField(b[4..4 + len]), 4 + len) else Bad
  }

  function Prepend(done: seq<Field>, used: nat, rest: Parsed<seq<Field>>): Parsed<seq<Field>> {
    if rest.Bad? then Bad else Parsed.Parsed(done + rest.value, used + rest.used)
  }

  function DecodeRow(types: seq<TypeId>, b: seq<byte>): Parsed<seq<Field>> {
    if types == [] then Parsed.Parsed([], 0)
    else
      var first := DecodeField(types[0], b);
      if first.Bad? || first.used > |b| then Bad
      else Prepend([first.value], first.used, DecodeRow(types[1..], b[first.used..]))
  }

  // ---------- Round trips ----------

  lemma FieldRoundTrip(f: Field, rest: seq<byte>)
    requires FieldOk(f) && Kept(f)
    ensures DecodeField(TypeOf(f), EncodeField(f) + rest) == Parsed.Parsed(f, |EncodeField(f)|)
  {
    var b := EncodeField(f) + rest;
    match f
    case IntField(i) =>
      assert b[..4] == Encode(Unsigned(i));
      NumEncode(Unsigned(i));
    case FloatField(bits) =>
      assert b[..4] == Encode(bits);
      NumEncode(bits);
    case CharField(chars) =>
      assert b[..4] == Encode(|chars|);
      NumEncode(|chars|);
      assert b[4..4 + |chars|] == chars;
    case NullField(_) => assert false;
  }

  /** Decoding a first field, then the rest. */
  lemma DecodeAfter(t: TypeId, types: seq<TypeId>, a: seq<byte>, b: seq<byte>, f: Field)
    requires DecodeField(t, a + b) == Parsed.Parsed(f, |a|)
    ensures DecodeRow([t] + types, a + b) == Prepend([f], |a|, DecodeRow(types, b))
  {
  }

  lemma {:induction false} KeptRowRoundTrip(row: seq<Field>, rest: seq<byte>)
    requires RowOk(row) && Storable(row)
    ensures DecodeRow(Types(row), EncodeRow(row) + rest) == Parsed.Parsed(row, |EncodeRow(row)|)
  {
    if row != [] {
      var f, more := EncodeField(row[0]), EncodeRow(row[1..]);
      FieldRoundTrip(row[0], more + rest);
      KeptRowRoundTrip(row[1..], rest);
      DecodeAfter(TypeOf(row[0]), Types(row[1..]), f, more + rest, row[0]);
      assert EncodeRow(row) + rest == f + (more + rest);
      assert Types(row) == [TypeOf(row[0])] + Types(row[1..]);
      assert row == [row[0]] + row[1..];
    }
  }

  lemma {:induction false} DecodedIsKept(types: seq<TypeId>, b: seq<byte>)
    requires DecodeRow(types, b).Parsed?
    ensures Storable(DecodeRow(types, b).value)
  {
    if types != [] {
      var first := DecodeField(types[0], b);
      DecodedIsKept(types[1..], b[first.used..]);
    }
  }

  /** Decoding undoes encoding, whatever follows in the buffer, exactly for the rows without null fields and
      without over-long character fields. */
  lemma RoundTripIff(row: seq<Field>, rest: seq<byte>)
    requires RowOk(row)
    ensures DecodeRow(Types(row), EncodeRow(row) + rest) == Parsed.Parsed(row, |EncodeRow(row)|) <==> Storable(row)
  {
    if Storable(row) {
      KeptRowRoundTrip(row, rest);
    } else if DecodeRow(Types(row), EncodeRow(row) + rest).Parsed? {
      DecodedIsKept(Types(row), EncodeRow(row) + rest);
    }
  }

  /** A null integer before zero bytes comes back as the integer 0. */
  lemma NullComesBackAsZero()
    ensures EncodeRow([NullField(IntType)]) == []
    ensures DecodeRow([IntType], EncodeRow([NullField(IntType)]) + [0, 0, 0, 0]) == Parsed.Parsed([IntField(0)], 4)
  {
    var b: seq<byte> := [0, 0, 0, 0];
    assert [NullField(IntType)][1..] == [];
    assert EncodeRow([NullField(IntType)]) + b == b && b[..4] == b && [IntType][1..] == [];
    NumOfFour(b);
    assert DecodeField(IntType, b) == Parsed.Parsed(IntField(0), 4);
    assert DecodeRow([IntType][1..], b[4..]) == Parsed.Parsed([], 0) && [IntField(0)] + [] == [IntField(0)];
  }

  // ---------- The loops over a buffer ----------

  /** `s` with `bytes` written at `at`. */
  function Put(s: seq<byte>, at: int, bytes: seq<byte>): (r: seq<byte>)
    requires 0 <= at && at + |bytes| <= |s|
    ensures |r| == |s| && r[at..at + |bytes|] == bytes
  {
    s[..at] + bytes + s[at + |bytes|..]
  }

  lemma PutNext(s: seq<byte>, at: int, a: seq<byte>, b: seq<byte>)
    requires 0 <= at && at + |a| + |b| <= |s|
    ensures Put(Put(s, at, a), at + |a|, b) == Put(s, at, a + b)
  {
  }

  lemma EncodeFront(row: seq<Field>, k: int)
    requires RowOk(row) && 0 < k <= |row|
    ensures EncodeRow(row[..k]) == EncodeField(row[0]) + EncodeRow(row[1..][..k - 1])
  {
    assert row[..k][1..] == row[1..][..k - 1];
  }

  lemma Regroup<T>(a: seq<T>, b: seq<T>, c: seq<T>)
    ensures a + (b + c) == (a + b) + c
  {
  }

  lemma {:induction false} EncodeNext(row: seq<Field>, k: int)
    requires RowOk(row) && 0 <= k < |row|
    ensures EncodeRow(row[..k + 1]) == EncodeRow(row[..k]) + EncodeField(row[k])
  {
    EncodeFront(row, k + 1);
    if k == 0 {
      assert EncodeRow(row[..0]) == [] && EncodeRow(row[1..][..0]) == [];
      assert [] + EncodeField(row[0]) == EncodeField(row[0]) + [];
    } else {
      EncodeNext(row[1..], k - 1);
      EncodeFront(row, k);
      Regroup(EncodeField(row[0]), EncodeRow(row[1..][..k - 1]), EncodeField(row[k]));
    }
  }

  lemma {:induction false} EncodeWithin(row: seq<Field>, k: int)
    requires RowOk(row) && 0 <= k <= |row|
    ensures |EncodeRow(row[..k])| <= |EncodeRow(row)|
    decreases |row| - k
  {
    if k < |row| {
      EncodeNext(row, k);
      EncodeWithin(row, k + 1);
    } else {
      assert row[..k] == row;
    }
  }

  /** The first k fields have been written. */
  ghost predicate SoFar(row: seq<Field>, k: int, start: seq<byte>, at: int, now: seq<byte>, ofs: int)
    requires RowOk(row) && 0 <= k <= |row|
  {
    ofs == |EncodeRow(row[..k])| && 0 <= at && at + ofs <= |start| && now == Put(start, at, EncodeRow(row[..k]))
  }

  lemma NothingWritten(row: seq<Field>, start: seq<byte>, at: int)
    requires RowOk(row) && 0 <= at <= |start|
    ensures SoFar(row, 0, start, at, start, 0)
  {
  }

  /** Writing the next field extends the row written so far. */
  lemma WriteNext(row: seq<Field>, k: int, start: seq<byte>, at: int, now: seq<byte>, ofs: int)
    requires RowOk(row) && 0 <= k < |row| && 0 <= at && at + |EncodeRow(row)| <= |start|
    requires SoFar(row, k, start, at, now, ofs)
    ensures at + ofs + |EncodeField(row[k])| <= |start|
    ensures SoFar(row, k + 1, start, at, Put(now, at + ofs, EncodeField(row[k])), ofs + |EncodeField(row[k])|)
  {
    var done, f := EncodeRow(row[..k]), EncodeField(row[k]);
    assert EncodeRow(row[..k + 1]) == done + f && |done| + |f| <= |EncodeRow(row)| by {
      EncodeNext(row, k);
      EncodeWithin(row, k + 1);
    }
    PutNext(start, at, done, f);
  }

  method WriteBytes(buf: array<byte>, at: int, bytes: seq<byte>)
    requires 0 <= at && at + |bytes| <= buf.Length
    modifies buf
    ensures buf[..] == Put(old(buf[..]), at, bytes)
  {
    forall i | 0 <= i < |bytes| {
      buf[at + i] := bytes[i];
    }
  }

  method SerializeField(f: Field, buf: array<byte>, at: int) returns (move: int)
    requires FieldOk(f) && 0 <= at && at + |EncodeField(f)| <= buf.Length
    modifies buf
    ensures buf[..] == Put(old(buf[..]), at, EncodeField(f)) && move == |EncodeField(f)|
  {
    var bytes := EncodeField(f);
    WriteBytes(buf, at, bytes);
    move := |bytes|;
  }

  /** Writes the row at `at` and nothing else, and returns the number of bytes written. */
  method SerializeTo(row: seq<Field>, buf: array<byte>, at: int) returns (ofs: int)
    requires RowOk(row) && 0 <= at && at + |EncodeRow(row)| <= buf.Length
    modifies buf
    ensures buf[..] == Put(old(buf[..]), at, EncodeRow(row)) && ofs == |EncodeRow(row)|
  {
    ofs := 0;
    var k := 0;
    ghost var start := buf[..];
    NothingWritten(row, start, at);
    while k < |row|
      invariant 0 <= k <= |row| && |start| == buf.Length && SoFar(row, k, start, at, buf[..], ofs)
    {
      WriteNext(row, k, start, at, buf[..], ofs);
      var move := SerializeField(row[k], buf, at + ofs);
      ofs := ofs + move;
      k := k + 1;
    }
    assert row[..k] == row;
  }

  /** The size predicted is the number of bytes that SerializeTo writes. */
  method GetSerializedSize(row: seq<Field>) returns (size: int)
    requires RowOk(row)
    ensures size == |EncodeRow(row)|
  {
    size := 0;
    var k := 0;
    while k < |row|
      invariant 0 <= k <= |row| && size == |EncodeRow(row[..k])|
    {
      EncodeNext(row, k);
      size := size + (match row[k] case CharField(chars) => |chars| + 4 case NullField(_) => 0 case _ => 4);
      k := k + 1;
    }
    assert row[..k] == row;
  }

  /** Reads one field for each column of the schema. */
  method DeserializeFrom(types: seq<TypeId>, buf: array<byte>) returns (r: Parsed<seq<Field>>)
    ensures r == DecodeRow(types, buf[..])
  {
    var fields: seq<Field> := [];
    var ofs: nat := 0;
    var k: nat := 0;
    ghost var b := buf[..];
    DecodeStart(types, b);
    while k < |types|
      invariant DecodedSoFar(types, b, k, ofs, fields)
    {
      assert buf[ofs..] == b[ofs..];
      DecodeNext(types, b, k, ofs, fields);
      var next := DecodeField(types[k], buf[ofs..]);
      if next.Bad? {
        return Bad;
      }
      fields := fields + [next.value];
      ofs := ofs + next.used;
      k := k + 1;
    }
    DecodeEnd(types, b, ofs, fields);
    r := Parsed.Parsed(fields, ofs);
  }

  /** The first k fields have been read, from `ofs` bytes; the rest of the row decodes from what follows. */
  ghost predicate DecodedSoFar(types: seq<TypeId>, b: seq<byte>, k: nat, ofs: nat, fields: seq<Field>) {
    && k <= |types| && ofs <= |b|
    && DecodeRow(types, b) == Prepend(fields, ofs, DecodeRow(types[k..], b[ofs..]))
  }

  lemma DecodeStart(types: seq<TypeId>, b: seq<byte>)
    ensures DecodedSoFar(types, b, 0, 0, [])
  {
    assert types[0..] == types && b[0..] == b;
    var r := DecodeRow(types, b);
    assert r.Parsed? ==> [] + r.value == r.value;
  }

  /** Reading one more field moves it from what is still to be decoded to what has been read. */
  lemma DecodeNext(types: seq<TypeId>, b: seq<byte>, k: nat, ofs: nat, fields: seq<Field>)
    requires DecodedSoFar(types, b, k, ofs, fields) && k < |types|
    ensures var next := DecodeField(types[k], b[ofs..]);
      if next.Bad? then DecodeRow(types, b) == Bad
      else DecodedSoFar(types, b, k + 1, ofs + next.used, fields + [next.value])
  {
    var next := DecodeField(types[k], b[ofs..]);
    if next.Parsed? {
      assert types[k..][1..] == types[k + 1..] && b[ofs..][next.used..] == b[ofs + next.used..];
      PrependTwice(fields, ofs, [next.value], next.used, DecodeRow(types[k + 1..], b[ofs + next.used..]));
    }
  }

  lemma DecodeEnd(types: seq<TypeId>, b: seq<byte>, ofs: nat, fields: seq<Field>)
    requires DecodedSoFar(types, b, |types|, ofs, fields)
    ensures DecodeRow(types, b) == Parsed.Parsed(fields, ofs)
  {
    assert fields + [] == fields;
  }

  lemma PrependTwice(a: seq<Field>, m: nat, b: seq<Field>, n: nat, rest: Parsed<seq<Field>>)
    ensures Prepend(a, m, Prepend(b, n, rest)) == Prepend(a + b, m + n, rest)
  {
    if rest.Parsed? {
      assert a + (b + rest.value) == (a + b) + rest.value;
    }
  }
}
