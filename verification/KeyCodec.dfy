/** Keys as bytes (src/btree/key.cpp:36-117). */
module KeyCodec {
  import opened Keys
  import opened Pages
  import opened ByteCodec
  import opened Wrappers

  const NUL := 0
  const INT := 1
  const FLOAT := 2
  const BOOLEAN := 3
  const VARCHAR := 4

  function EncodeValue(v: Value): Pages.Bytes {
    match v
    case Null => [NUL]
    case Int(i) => [INT] + LittleEndian(IntBits(i), 4)
    case Float(bits) => [FLOAT] + LittleEndian(bits, 4)
    case Bool(b) => [BOOLEAN, if b then 1 else 0]
    case Varchar(s) => [VARCHAR] + LittleEndian(|s|, 4) + s
  }

  /** One element from the front of the bytes; None for a corrupt tag, or bytes that end too early. */
  function DecodeValue(b: Pages.Bytes): Option<(Value, Pages.Bytes)> {
    if b == [] then None
    else if b[0] == NUL then Some((Null, b[1..]))
    else if b[0] == INT then
      match ReadNumber(b[1..], 4) case None => None case Some((u, rest)) =>
        if u < 0x1_0000_0000 then Some((Int(BitsInt(u)), rest)) else None
    else if b[0] == FLOAT then
      match ReadNumber(b[1..], 4) case None => None case Some((u, rest)) =>
        if IsFloatBits(u) then Some((Float(u), rest)) else None
    else if b[0] == BOOLEAN then
      if |b| < 2 then None else Some((Bool(b[1] != 0), b[2..]))
    else if b[0] == VARCHAR then
      match ReadNumber(b[1..], 4) case None => None case Some((n, rest)) =>
        match ReadBytes(rest, n) case None => None case Some((s, after)) => Some((Varchar(s), after))
    else None
  }

  function EncodeValues(key: Key): Pages.Bytes {
    if key == [] then [] else EncodeValues(key[..|key| - 1]) + EncodeValue(key[|key| - 1])
  }

  function EncodeKey(key: Key): Pages.Bytes { LittleEndian(|key|, 2) + EncodeValues(key) }

  function DecodeValues(b: Pages.Bytes, n: nat): Option<(Key, Pages.Bytes)> {
    if n == 0 then Some(([], b))
    else match DecodeValue(b) case None => None case Some((v, rest)) =>
      match DecodeValues(rest, n - 1) case None => None case Some((key, after)) => Some(([v] + key, after))
  }

  function DecodeKey(b: Pages.Bytes): Option<(Key, Pages.Bytes)> {
    match ReadNumber(b, 2) case None => None case Some((n, rest)) => DecodeValues(rest, n)
  }

  /** What the length fields can hold. */
  predicate Encodable(key: Key) {
    |key| < 0x1_0000 && forall i :: 0 <= i < |key| && key[i].Varchar? ==> |key[i].s| < 0x1_0000_0000
  }

  lemma DecodeValueBack(v: Value, rest: Pages.Bytes)
    requires v.Varchar? ==> |v.s| < 0x1_0000_0000
    ensures DecodeValue(EncodeValue(v) + rest) == Some((v, rest))
  {
    hide LittleEndian, FromLittleEndian, Power256;
    Widths();
    var b := EncodeValue(v) + rest;
    match v {
      case Null =>
        assert b[1..] == rest;
      case Int(i) =>
        assert b[1..] == LittleEndian(IntBits(i), 4) + rest;
        ReadNumberBack(IntBits(i), 4, rest);
      case Float(bits) =>
        assert b[1..] == LittleEndian(bits, 4) + rest;
        ReadNumberBack(bits, 4, rest);
      case Bool(x) =>
        assert b[2..] == rest;
      case Varchar(s) =>
        assert b[1..] == LittleEndian(|s|, 4) + (s + rest);
        ReadNumberBack(|s|, 4, s + rest);
        ReadBytesBack(s, rest);
    }
  }

  lemma {:induction false} EncodeFirst(key: Key)
    requires key != []
    ensures EncodeValues(key) == EncodeValue(key[0]) + EncodeValues(key[1..])
  {
    if |key| > 1 {
      var n := |key| - 1;
      EncodeFirst(key[..n]);
      assert key[..n][1..] == key[1..][..n - 1];
    }
  }

  lemma {:induction false} DecodeValuesBack(key: Key, rest: Pages.Bytes)
    requires forall i :: 0 <= i < |key| && key[i].Varchar? ==> |key[i].s| < 0x1_0000_0000
    ensures DecodeValues(EncodeValues(key) + rest, |key|) == Some((key, rest))
  {
    hide EncodeValue, DecodeValue;
    if key == [] {
      assert EncodeValues(key) + rest == rest;
    } else {
      EncodeFirst(key);
      assert EncodeValues(key) + rest == EncodeValue(key[0]) + (EncodeValues(key[1..]) + rest);
      DecodeValueBack(key[0], EncodeValues(key[1..]) + rest);
      DecodeValuesBack(key[1..], rest);
      assert [key[0]] + key[1..] == key;
    }
  }

  /** Decoding an encoded key gives the key, and stops right behind its bytes. */
  lemma DecodeKeyBack(key: Key, rest: Pages.Bytes)
    requires Encodable(key)
    ensures DecodeKey(EncodeKey(key) + rest) == Some((key, rest))
  {
    hide LittleEndian, EncodeValues, DecodeValues, Power256;
    Widths();
    assert EncodeKey(key) + rest == LittleEndian(|key|, 2) + (EncodeValues(key) + rest);
    ReadNumberBack(|key|, 2, EncodeValues(key) + rest);
    DecodeValuesBack(key, rest);
  }

  lemma {:induction false} EncodedValuesSize(key: Key)
    ensures |EncodeValues(key)| == ValuesSize(key)
  {
    if key != [] {
      EncodeFirst(key);
      EncodedValuesSize(key[1..]);
    }
  }

  /** The size the tree computes with is the size of the encoded key. */
  lemma EncodedKeySize(key: Key)
    ensures |EncodeKey(key)| == KeySize(key)
  {
    EncodedValuesSize(key);
  }

  /** KeyCodec::encode appends element after element. */
  method Encode(key: Key) returns (buf: Pages.Bytes)
    ensures buf == EncodeKey(key)
  {
    hide LittleEndian, EncodeValue;
    buf := LittleEndian(|key|, 2);
    for i := 0 to |key|
      invariant buf == LittleEndian(|key|, 2) + EncodeValues(key[..i])
    {
      assert key[..i + 1][..i] == key[..i];
      ghost var head, done, more := LittleEndian(|key|, 2), EncodeValues(key[..i]), EncodeValue(key[i]);
      assert (head + done) + more == head + (done + more);
      buf := buf + EncodeValue(key[i]);
    }
    assert key[..|key|] == key;
  }

  /** KeyCodec::decode reads element after element, from a position that moves on. */
  method Decode(data: Pages.Bytes, start: nat) returns (result: Option<(Key, nat)>)
    requires start <= |data|
    ensures result.Some? ==> start <= result.value.1 <= |data|
    ensures DecodeKey(data[start..]) == match result case None => None case Some((key, pos)) => if pos <= |data| then Some((key, data[pos..])) else None
  {
    hide DecodeValue, FromLittleEndian;
    if |data| - start < 2 {
      return None;
    }
    var n := FromLittleEndian(data[start..start + 2]);
    assert data[start..][..2] == data[start..start + 2] && data[start..][2..] == data[start + 2..];
    var pos, key: Key := start + 2, [];
    assert forall tail: Key :: key + tail == tail;
    for i := 0 to n
      invariant start <= pos <= |data|
      invariant DecodeKey(data[start..]) == match DecodeValues(data[pos..], n - i) case None => None case Some((tail, after)) => Some((key + tail, after))
    {
      var v := DecodeValue(data[pos..]);
      if v.None? {
        return None;
      }
      var (x, rest) := v.value;
      DecodedRest(data[pos..]);
      assert rest == data[|data| - |rest|..];
      assert forall tail: Key {:trigger [x] + tail} :: key + ([x] + tail) == (key + [x]) + tail;
      pos, key := |data| - |rest|, key + [x];
    }
    assert key + [] == key;
    result := Some((key, pos));
  }

  /** What is left after one element is the end of the bytes. */
  lemma DecodedRest(b: Pages.Bytes)
    requires DecodeValue(b).Some?
    ensures |DecodeValue(b).value.1| < |b| && DecodeValue(b).value.1 == b[|b| - |DecodeValue(b).value.1|..]
  {
    hide FromLittleEndian;
  }
}
