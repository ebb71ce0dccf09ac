/** Rows as bytes: a bitmap of NULLs, then the other values in column order (src/row/serializer.cpp:10-237). */
module RowCodec {
  import opened Keys
  import opened Schemas
  import opened ByteCodec
  import opened Wrappers

  // ------------------------------------------------------------ bits

  function Power2(k: nat): (p: nat)
    ensures p > 0
  {
    if k == 0 then 1 else 2 * Power2(k - 1)
  }

  /** (b >> k) & 1 */
  predicate Bit(b: nat, k: nat)
    decreases k
  {
    if k == 0 then b % 2 == 1 else Bit(b / 2, k - 1)
  }

  lemma {:induction false} BitFits(b: nat, k: nat, n: nat)
    requires k < n && b < Power2(n) && !Bit(b, k)
    ensures b + Power2(k) < Power2(n)
    decreases k
  {
    var h, p := b / 2, Power2(n - 1);
    assert Power2(n) == 2 * p && b == 2 * h + b % 2 && h < p;
    if k > 0 {
      BitFits(h, k - 1, n - 1);
    }
  }

  lemma {:induction false} AddedBit(b: nat, k: nat, j: nat)
    requires !Bit(b, k)
    ensures Bit(b + Power2(k), j) <==> j == k || Bit(b, j)
    decreases k
  {
    if k == 0 {
      assert (b + 1) / 2 == b / 2;
    } else {
      assert (b + Power2(k)) / 2 == b / 2 + Power2(k - 1) && (b + Power2(k)) % 2 == b % 2;
      if j > 0 {
        AddedBit(b / 2, k - 1, j - 1);
      }
    }
  }

  lemma ByteIsPower()
    ensures Power2(8) == 0x100
  {
    assert Power2(4) == 16;
  }

  /** b | (1 << k) */
  function WithBit(b: Byte, k: nat): (b': Byte)
    requires k < 8
  {
    if Bit(b, k) then b else ByteIsPower(); BitFits(b, k, 8); b + Power2(k)
  }

  lemma WithBitBits(b: Byte, k: nat, j: nat)
    requires k < 8
    ensures Bit(WithBit(b, k), j) <==> j == k || Bit(b, j)
  {
    if !Bit(b, k) {
      AddedBit(b, k, j);
    }
  }

  function BitmapSize(columns: nat): nat { (columns + 7) / 8 }

  predicate GetNullBit(bitmap: Bytes, i: nat)
    requires i / 8 < |bitmap|
  {
    Bit(bitmap[i / 8], i % 8)
  }

  function SetNullBit(bitmap: Bytes, i: nat): (bitmap': Bytes)
    requires i / 8 < |bitmap|
    ensures |bitmap'| == |bitmap|
  {
    bitmap[i / 8 := WithBit(bitmap[i / 8], i % 8)]
  }

  /** Setting one bit changes no other. */
  lemma SetNullBitBits(bitmap: Bytes, i: nat, j: nat)
    requires i / 8 < |bitmap| && j / 8 < |bitmap|
    ensures GetNullBit(SetNullBit(bitmap, i), j) <==> j == i || GetNullBit(bitmap, j)
  {
    WithBitBits(bitmap[i / 8], i % 8, j % 8);
    hide Bit, WithBit;
    assert j == i <==> j / 8 == i / 8 && j % 8 == i % 8;
  }

  /** Exactly the columns that are NULL are marked. */
  predicate IsBitmap(bitmap: Bytes, row: Row) {
    && |bitmap| == BitmapSize(|row|)
    && forall i :: 0 <= i < |row| ==> (GetNullBit(bitmap, i) <==> row[i].Null?)
  }

  // ------------------------------------------------------------ values

  function EncodeColumn(v: Value): Bytes {
    match v
    case Null => []
    case Int(i) => LittleEndian(IntBits(i), 4)
    case Float(bits) => LittleEndian(bits, 4)
    case Bool(b) => [if b then 1 else 0]
    case Varchar(s) => LittleEndian(|s|, 2) + s
  }

  function DecodeColumn(ctype: ColumnType, b: Bytes): Option<(Value, Bytes)> {
    match ctype
    case INT => (match ReadNumber(b, 4) case None => None case Some((u, rest)) => if u < 0x1_0000_0000 then Some((Int(BitsInt(u)), rest)) else None)
    case FLOAT => (match ReadNumber(b, 4) case None => None case Some((u, rest)) => if IsFloatBits(u) then Some((Float(u), rest)) else None)
    case BOOLEAN => if b == [] then None else Some((Bool(b[0] != 0), b[1..]))
    case VARCHAR => (match ReadNumber(b, 2) case None => None case Some((n, rest)) =>
                      match ReadBytes(rest, n) case None => None case Some((s, after)) => Some((Varchar(s), after)))
  }

  /** The length of a string is stored in two bytes. */
  predicate ShortEnough(v: Value) { v.Varchar? ==> |v.s| < 0x1_0000 }

  /** A stored value is read back, or, if it is a longer string, another value or none. */
  lemma DecodeColumnBack(column: Column, v: Value, rest: Bytes)
    requires Storable(column, v) && !v.Null?
    ensures ShortEnough(v) ==> DecodeColumn(column.ctype, EncodeColumn(v) + rest) == Some((v, rest))
    ensures !ShortEnough(v) ==>
      var d := DecodeColumn(column.ctype, EncodeColumn(v) + rest); d.None? || d.value.0 != v
  {
    hide LittleEndian, FromLittleEndian, Power256, ReadNumber;
    Widths();
    match v {
      case Null =>
      case Int(i) => ReadNumberBack(IntBits(i), 4, rest);
      case Float(bits) => ReadNumberBack(bits, 4, rest);
      case Bool(b) => assert (EncodeColumn(v) + rest)[1..] == rest;
      case Varchar(s) =>
        assert EncodeColumn(v) + rest == LittleEndian(|s|, 2) + (s + rest);
        if ShortEnough(v) {
          ReadNumberBack(|s|, 2, s + rest);
          ReadBytesBack(s, rest);
        } else {
          ReadNumberCut(|s|, 2, s + rest);
        }
    }
  }

  lemma ReadNumberCut(n: nat, width: nat, rest: Bytes)
    ensures ReadNumber(LittleEndian(n, width) + rest, width) == Some((n % Power256(width), rest))
  {
    LittleEndianCuts(n, width);
    assert (LittleEndian(n, width) + rest)[..width] == LittleEndian(n, width);
    assert (LittleEndian(n, width) + rest)[width..] == rest;
  }

  // ------------------------------------------------------------ rows

  /** The values from column i on. */
  function EncodeColumns(row: Row, i: nat): Bytes
    requires i <= |row|
    decreases |row| - i
  {
    if i == |row| then [] else EncodeColumn(row[i]) + EncodeColumns(row, i + 1)
  }

  function DecodeColumns(schema: Schema, bitmap: Bytes, b: Bytes, i: nat): Option<Row>
    requires i <= |schema.columns| && |bitmap| == BitmapSize(|schema.columns|)
    decreases |schema.columns| - i
  {
    if i == |schema.columns| then Some([])
    else if GetNullBit(bitmap, i) then
      match DecodeColumns(schema, bitmap, b, i + 1) case None => None case Some(more) => Some([Null] + more)
    else match DecodeColumn(schema.columns[i].ctype, b) case None => None case Some((v, rest)) =>
      match DecodeColumns(schema, bitmap, rest, i + 1) case None => None case Some(more) => Some([v] + more)
  }

  function DecodeRow(schema: Schema, bytes: Bytes): Option<Row> {
    var size := BitmapSize(|schema.columns|);
    if |bytes| < size then None else DecodeColumns(schema, bytes[..size], bytes[size..], 0)
  }

  lemma {:induction false} ColumnsBack(schema: Schema, bitmap: Bytes, row: Row, i: nat)
    requires Serializable(schema, row) && IsBitmap(bitmap, row) && i <= |row|
    ensures DecodeColumns(schema, bitmap, EncodeColumns(row, i), i) == Some(row[i..])
      <==> forall j :: i <= j < |row| ==> ShortEnough(row[j])
    decreases |row| - i
  {
    hide EncodeColumn, DecodeColumn, GetNullBit, ShortEnough, Storable;
    if i == |row| {
      assert row[i..] == [];
    } else {
      ColumnsBack(schema, bitmap, row, i + 1);
      assert row[i..] == [row[i]] + row[i + 1..];
      if row[i].Null? {
        assert EncodeColumn(row[i]) == [] by { NullIsEmpty(); }
        assert [] + EncodeColumns(row, i + 1) == EncodeColumns(row, i + 1);
        assert ShortEnough(row[i]) by { NullIsEmpty(); }
        var more := DecodeColumns(schema, bitmap, EncodeColumns(row, i + 1), i + 1);
        if more.Some? {
          var whole := [Null] + more.value;
          assert whole[0] == Null && whole[1..] == more.value && row[i..][0] == row[i] && row[i..][1..] == row[i + 1..];
        }
      } else {
        DecodeColumnBack(schema.columns[i], row[i], EncodeColumns(row, i + 1));
        var decoded := DecodeColumn(schema.columns[i].ctype, EncodeColumns(row, i));
        if decoded.Some? {
          var more := DecodeColumns(schema, bitmap, decoded.value.1, i + 1);
          if more.Some? {
            var whole := [decoded.value.0] + more.value;
            assert whole[0] == decoded.value.0 && whole[1..] == more.value && row[i..][0] == row[i] && row[i..][1..] == row[i + 1..];
          }
        }
      }
    }
  }

  lemma NullIsEmpty()
    ensures EncodeColumn(Null) == [] && ShortEnough(Null)
  {
  }

  /** A row that can be stored is read back as it was, if and only if its strings have at most 65535 bytes. */
  lemma RowRoundTripIff(schema: Schema, bitmap: Bytes, row: Row)
    requires Serializable(schema, row) && IsBitmap(bitmap, row)
    ensures DecodeRow(schema, bitmap + EncodeColumns(row, 0)) == Some(row) <==> forall j :: 0 <= j < |row| ==> ShortEnough(row[j])
  {
    hide DecodeColumns, EncodeColumns, GetNullBit, Storable;
    ColumnsBack(schema, bitmap, row, 0);
    var bytes, size := bitmap + EncodeColumns(row, 0), BitmapSize(|schema.columns|);
    assert bytes[..size] == bitmap && bytes[size..] == EncodeColumns(row, 0);
    assert row[0..] == row;
  }

  lemma {:induction false} ZeroHasNoBit(k: nat)
    ensures !Bit(0, k)
  {
    if k > 0 {
      ZeroHasNoBit(k - 1);
    }
  }

  lemma NoBits(bitmap: Bytes, i: nat)
    requires i / 8 < |bitmap| && forall j :: 0 <= j < |bitmap| ==> bitmap[j] == 0
    ensures !GetNullBit(bitmap, i)
  {
    ZeroHasNoBit(i % 8);
  }

  /** The bitmap of a row; None if a column that may not be NULL is. */
  method NullBitmap(schema: Schema, row: Row) returns (bitmap: Option<Bytes>)
    requires |row| == |schema.columns|
    ensures bitmap.Some? <==> forall j :: 0 <= j < |row| && row[j].Null? ==> schema.columns[j].nullable
    ensures bitmap.Some? ==> IsBitmap(bitmap.value, row)
  {
    hide Bit, WithBit;
    var bits: Bytes := seq(BitmapSize(|row|), k => 0);
    forall j: nat | j < |row| ensures !GetNullBit(bits, j) {
      NoBits(bits, j);
    }
    for i := 0 to |row|
      invariant |bits| == BitmapSize(|row|)
      invariant forall j :: 0 <= j < |row| ==> (GetNullBit(bits, j) <==> j < i && row[j].Null?)
      invariant forall j :: 0 <= j < i && row[j].Null? ==> schema.columns[j].nullable
    {
      if row[i].Null? {
        if !schema.columns[i].nullable {
          return None;
        }
        forall j: nat | j < |row| ensures GetNullBit(SetNullBit(bits, i), j) <==> j == i || GetNullBit(bits, j) {
          SetNullBitBits(bits, i, j);
        }
        bits := SetNullBit(bits, i);
      }
    }
    bitmap := Some(bits);
  }

  /** The columns that are not NULL are appended to the bitmap; None where one does not hold its type. */
  method AppendColumns(schema: Schema, row: Row, bitmap: Bytes) returns (buf: Option<Bytes>)
    requires |row| == |schema.columns| && IsBitmap(bitmap, row)
    requires forall j :: 0 <= j < |row| && GetNullBit(bitmap, j) ==> Storable(schema.columns[j], row[j])
    ensures buf.Some? <==> forall j :: 0 <= j < |row| ==> Storable(schema.columns[j], row[j])
    ensures buf.Some? ==> buf.value == bitmap + EncodeColumns(row, 0)
  {
    hide GetNullBit, EncodeColumn, Storable;
    var bytes: Bytes := bitmap;
    for i := 0 to |row|
      invariant forall j :: 0 <= j < i ==> Storable(schema.columns[j], row[j])
      invariant bytes + EncodeColumns(row, i) == bitmap + EncodeColumns(row, 0)
    {
      assert EncodeColumns(row, i) == EncodeColumn(row[i]) + EncodeColumns(row, i + 1);
      if GetNullBit(bitmap, i) {
        assert EncodeColumn(row[i]) == [] by { NullIsEmpty(); }
        assert EncodeColumns(row, i) == EncodeColumns(row, i + 1);
      } else {
        if !Storable(schema.columns[i], row[i]) {
          return None;
        }
        assert bytes + (EncodeColumn(row[i]) + EncodeColumns(row, i + 1)) == (bytes + EncodeColumn(row[i])) + EncodeColumns(row, i + 1);
        bytes := bytes + EncodeColumn(row[i]);
      }
    }
    assert bytes + [] == bytes;
    buf := Some(bytes);
  }

  /** RowSerializer::serialize: None where it throws. */
  method Serialize(schema: Schema, row: Row) returns (bytes: Option<Bytes>)
    ensures bytes.Some? <==> Serializable(schema, row)
    ensures bytes.Some? ==> exists bitmap :: IsBitmap(bitmap, row) && bytes.value == bitmap + EncodeColumns(row, 0)
    ensures bytes.Some? ==> (DecodeRow(schema, bytes.value) == Some(row) <==> forall j :: 0 <= j < |row| ==> ShortEnough(row[j]))
  {
    hide GetNullBit, EncodeColumn, EncodeColumns, ShortEnough, DecodeRow;
    if |row| != |schema.columns| {
      return None;
    }
    var nulls := NullBitmap(schema, row);
    if nulls.None? {
      return None;
    }
    bytes := AppendColumns(schema, row, nulls.value);
    if bytes.Some? {
      RowRoundTripIff(schema, nulls.value, row);
    }
  }

  /** RowSerializer::deserialize: values are read from a position that moves on; None where it throws. */
  method Deserialize(schema: Schema, bytes: Bytes) returns (row: Option<Row>)
    ensures row == DecodeRow(schema, bytes)
  {
    hide DecodeColumn, GetNullBit;
    var size := BitmapSize(|schema.columns|);
    if |bytes| < size {
      return None;
    }
    var bitmap, rest := bytes[..size], bytes[size..];
    var values: Row := [];
    assert forall more: Row :: values + more == more;
    for i := 0 to |schema.columns|
      invariant DecodeRow(schema, bytes) == match DecodeColumns(schema, bitmap, rest, i) case None => None case Some(more) => Some(values + more)
    {
      if GetNullBit(bitmap, i) {
        assert forall more: Row {:trigger [Null] + more} :: values + ([Null] + more) == (values + [Null]) + more;
        values := values + [Null];
      } else {
        var decoded := DecodeColumn(schema.columns[i].ctype, rest);
        if decoded.None? {
          return None;
        }
        var v := decoded.value.0;
        assert forall more: Row {:trigger [v] + more} :: values + ([v] + more) == (values + [v]) + more;
        values, rest := values + [v], decoded.value.1;
      }
    }
    assert values + [] == values;
    row := Some(values);
  }
}
