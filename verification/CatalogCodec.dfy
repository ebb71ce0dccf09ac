/** The catalog page (src/catalog/catalog_manager.cpp:161-416). */
module CatalogCodec {
  import opened Keys
  import opened ByteCodec
  import opened Wrappers
  import KeyCodec

  datatype ColumnEntry = ColumnEntry(name: Bytes, ctype: Byte, maxLength: nat, nullable: bool, isKey: bool, autoIncrement: bool,
                                     default: Option<Value>)
  datatype CheckEntry = CheckEntry(column: nat, op: Byte, operand: Value)
  datatype FkEntry = FkEntry(columns: seq<nat>, refTable: Bytes, refColumns: seq<nat>, onDelete: Byte, childIndex: Bytes, refIndex: Bytes)
  datatype TableEntry = TableEntry(name: Bytes, root: nat, primaryKey: seq<nat>, columns: seq<ColumnEntry>, checks: seq<CheckEntry>,
                                   foreignKeys: seq<FkEntry>, createSql: Bytes)
  datatype IndexEntry = IndexEntry(name: Bytes, table: Bytes, columns: seq<Bytes>, root: nat, unique: bool)

  datatype Catalog = Catalog(tables: map<Bytes, TableEntry>, indexes: map<Bytes, IndexEntry>)

  const PAGE_SIZE := 4096

  // ------------------------------------------------------------ what the number fields can hold

  predicate Word(n: nat) { n < 0x1_0000_0000 }

  predicate Words(ns: seq<nat>) { Word(|ns|) && forall i :: 0 <= i < |ns| ==> Word(ns[i]) }

  predicate ValueOk(v: Value) { v.Varchar? ==> Word(|v.s|) }

  predicate ColumnOk(c: ColumnEntry) { Word(|c.name|) && Word(c.maxLength) && (c.default.Some? ==> ValueOk(c.default.value)) }

  predicate CheckOk(c: CheckEntry) { Word(c.column) && ValueOk(c.operand) }

  predicate FkOk(f: FkEntry) {
    Words(f.columns) && Word(|f.refTable|) && Words(f.refColumns) && Word(|f.childIndex|) && Word(|f.refIndex|)
  }

  predicate TableOk(t: TableEntry) {
    && Word(|t.name|) && Word(t.root) && Words(t.primaryKey) && Word(|t.columns|) && Word(|t.checks|) && Word(|t.foreignKeys|)
    && Word(|t.createSql|)
    && (forall i :: 0 <= i < |t.columns| ==> ColumnOk(t.columns[i]))
    && (forall i :: 0 <= i < |t.checks| ==> CheckOk(t.checks[i]))
    && (forall i :: 0 <= i < |t.foreignKeys| ==> FkOk(t.foreignKeys[i]))
  }

  predicate IndexOk(x: IndexEntry) {
    && Word(|x.name|) && Word(|x.table|) && Word(|x.columns|) && Word(x.root)
    && forall i :: 0 <= i < |x.columns| ==> Word(|x.columns[i]|)
  }

  /** Entries lie under their own names. */
  predicate CatalogOk(c: Catalog) {
    && Word(|c.tables|) && Word(|c.indexes|)
    && (forall n :: n in c.tables ==> c.tables[n].name == n && TableOk(c.tables[n]))
    && (forall n :: n in c.indexes ==> c.indexes[n].name == n && IndexOk(c.indexes[n]))
  }

  // ------------------------------------------------------------ parts of an entry

  function EncodeWord(n: nat): Bytes { LittleEndian(n, 4) }

  function DecodeWord(b: Bytes): Option<(nat, Bytes)> { ReadNumber(b, 4) }

  function EncodeFlag(f: bool): Bytes { [if f then 1 else 0] }

  function DecodeByte(b: Bytes): Option<(Byte, Bytes)> { if b == [] then None else Some((b[0], b[1..])) }

  function DecodeFlag(b: Bytes): Option<(bool, Bytes)> { if b == [] then None else Some((b[0] != 0, b[1..])) }

  function EncodeString(s: Bytes): Bytes { EncodeWord(|s|) + s }

  function DecodeString(b: Bytes): Option<(Bytes, Bytes)> {
    match DecodeWord(b) case None => None case Some((n, rest)) => ReadBytes(rest, n)
  }

  lemma WordBack(n: nat, rest: Bytes)
    requires Word(n)
    ensures DecodeWord(EncodeWord(n) + rest) == Some((n, rest))
  {
    Widths();
    ReadNumberBack(n, 4, rest);
  }

  lemma StringBack(s: Bytes, rest: Bytes)
    requires Word(|s|)
    ensures DecodeString(EncodeString(s) + rest) == Some((s, rest))
  {
    hide DecodeWord, EncodeWord;
    assert EncodeString(s) + rest == EncodeWord(|s|) + (s + rest);
    WordBack(|s|, s + rest);
    ReadBytesBack(s, rest);
  }

  lemma ByteBack(x: Byte, rest: Bytes)
    ensures DecodeByte([x] + rest) == Some((x, rest))
  {
  }

  lemma FlagBack(f: bool, rest: Bytes)
    ensures DecodeFlag(EncodeFlag(f) + rest) == Some((f, rest))
  {
  }

  // ------------------------------------------------------------ lists: a count, then the elements

  function EncodeAll<T>(encode: T -> Bytes, xs: seq<T>): Bytes {
    if xs == [] then [] else encode(xs[0]) + EncodeAll(encode, xs[1..])
  }

  function DecodeAll<T>(decode: Bytes -> Option<(T, Bytes)>, b: Bytes, n: nat): Option<(seq<T>, Bytes)>
    decreases n
  {
    if n == 0 then Some(([], b))
    else match decode(b) case None => None case Some((x, rest)) =>
      match DecodeAll(decode, rest, n - 1) case None => None case Some((xs, after)) => Some(([x] + xs, after))
  }

  function EncodeList<T>(encode: T -> Bytes, xs: seq<T>): Bytes { EncodeWord(|xs|) + EncodeAll(encode, xs) }

  function DecodeList<T>(decode: Bytes -> Option<(T, Bytes)>, b: Bytes): Option<(seq<T>, Bytes)> {
    match DecodeWord(b) case None => None case Some((n, rest)) => DecodeAll(decode, rest, n)
  }

  /** Element number i is read back, whatever follows it. */
  ghost predicate ElementBack<T>(encode: T -> Bytes, decode: Bytes -> Option<(T, Bytes)>, x: T) {
    forall rest :: decode(encode(x) + rest) == Some((x, rest))
  }

  lemma {:induction false} AllBack<T>(encode: T -> Bytes, decode: Bytes -> Option<(T, Bytes)>, xs: seq<T>, rest: Bytes)
    requires forall i :: 0 <= i < |xs| ==> ElementBack(encode, decode, xs[i])
    ensures DecodeAll(decode, EncodeAll(encode, xs) + rest, |xs|) == Some((xs, rest))
  {
    if xs == [] {
      assert EncodeAll(encode, xs) + rest == rest;
    } else {
      assert EncodeAll(encode, xs) + rest == encode(xs[0]) + (EncodeAll(encode, xs[1..]) + rest);
      assert ElementBack(encode, decode, xs[0]);
      AllBack(encode, decode, xs[1..], rest);
      assert [xs[0]] + xs[1..] == xs;
    }
  }

  lemma ListBack<T>(encode: T -> Bytes, decode: Bytes -> Option<(T, Bytes)>, xs: seq<T>, rest: Bytes)
    requires Word(|xs|) && forall i :: 0 <= i < |xs| ==> ElementBack(encode, decode, xs[i])
    ensures DecodeList(decode, EncodeList(encode, xs) + rest) == Some((xs, rest))
  {
    hide DecodeWord, EncodeWord, DecodeAll, EncodeAll, ElementBack;
    assert EncodeList(encode, xs) + rest == EncodeWord(|xs|) + (EncodeAll(encode, xs) + rest);
    WordBack(|xs|, EncodeAll(encode, xs) + rest);
    AllBack(encode, decode, xs, rest);
  }

  lemma WordsBack(ns: seq<nat>, rest: Bytes)
    requires Words(ns)
    ensures DecodeList(DecodeWord, EncodeList(EncodeWord, ns) + rest) == Some((ns, rest))
  {
    hide DecodeWord, EncodeWord, DecodeList, EncodeList;
    forall i | 0 <= i < |ns| ensures ElementBack(EncodeWord, DecodeWord, ns[i]) {
      forall r ensures DecodeWord(EncodeWord(ns[i]) + r) == Some((ns[i], r)) {
        WordBack(ns[i], r);
      }
    }
    ListBack(EncodeWord, DecodeWord, ns, rest);
  }

  // ------------------------------------------------------------ columns, checks, foreign keys

  function EncodeDefault(v: Option<Value>): Bytes {
    match v case None => EncodeFlag(false) case Some(x) => EncodeFlag(true) + KeyCodec.EncodeValue(x)
  }

  function DecodeDefault(b: Bytes): Option<(Option<Value>, Bytes)> {
    match DecodeFlag(b) case None => None case Some((given, rest)) =>
      if !given then Some((None, rest))
      else match KeyCodec.DecodeValue(rest) case None => None case Some((v, after)) => Some((Some(v), after))
  }

  lemma DefaultBack(v: Option<Value>, rest: Bytes)
    requires v.Some? ==> ValueOk(v.value)
    ensures DecodeDefault(EncodeDefault(v) + rest) == Some((v, rest))
  {
    hide KeyCodec.EncodeValue, KeyCodec.DecodeValue;
    match v {
      case None => FlagBack(false, rest);
      case Some(x) =>
        assert EncodeDefault(v) + rest == EncodeFlag(true) + (KeyCodec.EncodeValue(x) + rest);
        FlagBack(true, KeyCodec.EncodeValue(x) + rest);
        KeyCodec.DecodeValueBack(x, rest);
    }
  }

  function EncodeColumn(c: ColumnEntry): Bytes {
    EncodeString(c.name) + ([c.ctype] + (EncodeWord(c.maxLength) + (EncodeFlag(c.nullable) + (EncodeFlag(c.isKey) +
      (EncodeFlag(c.autoIncrement) + EncodeDefault(c.default))))))
  }

  function DecodeColumn(b: Bytes): Option<(ColumnEntry, Bytes)> {
    match DecodeString(b) case None => None case Some((name, b1)) =>
    match DecodeByte(b1) case None => None case Some((ctype, b2)) =>
    match DecodeWord(b2) case None => None case Some((maxLength, b3)) =>
    match DecodeFlag(b3) case None => None case Some((nullable, b4)) =>
    match DecodeFlag(b4) case None => None case Some((isKey, b5)) =>
    match DecodeFlag(b5) case None => None case Some((autoIncrement, b6)) =>
    match DecodeDefault(b6) case None => None case Some((default, rest)) =>
      Some((ColumnEntry(name, ctype, maxLength, nullable, isKey, autoIncrement, default), rest))
  }

  lemma ColumnBack(c: ColumnEntry, rest: Bytes)
    requires ColumnOk(c)
    ensures DecodeColumn(EncodeColumn(c) + rest) == Some((c, rest))
  {
    hide DecodeString, EncodeString, DecodeWord, EncodeWord, DecodeFlag, EncodeFlag, DecodeDefault, EncodeDefault, DecodeByte;
    var r6 := EncodeDefault(c.default) + rest;
    var r5 := EncodeFlag(c.autoIncrement) + r6;
    var r4 := EncodeFlag(c.isKey) + r5;
    var r3 := EncodeFlag(c.nullable) + r4;
    var r2 := EncodeWord(c.maxLength) + r3;
    var r1 := [c.ctype] + r2;
    assert EncodeColumn(c) + rest == EncodeString(c.name) + r1;
    StringBack(c.name, r1);
    ByteBack(c.ctype, r2);
    WordBack(c.maxLength, r3);
    FlagBack(c.nullable, r4);
    FlagBack(c.isKey, r5);
    FlagBack(c.autoIncrement, r6);
    DefaultBack(c.default, rest);
  }

  function EncodeCheck(c: CheckEntry): Bytes { EncodeWord(c.column) + ([c.op] + KeyCodec.EncodeValue(c.operand)) }

  function DecodeCheck(b: Bytes): Option<(CheckEntry, Bytes)> {
    match DecodeWord(b) case None => None case Some((column, b1)) =>
    match DecodeByte(b1) case None => None case Some((op, b2)) =>
    match KeyCodec.DecodeValue(b2) case None => None case Some((operand, rest)) => Some((CheckEntry(column, op, operand), rest))
  }

  lemma CheckBack(c: CheckEntry, rest: Bytes)
    requires CheckOk(c)
    ensures DecodeCheck(EncodeCheck(c) + rest) == Some((c, rest))
  {
    hide DecodeWord, EncodeWord, DecodeByte, KeyCodec.EncodeValue, KeyCodec.DecodeValue;
    var r2 := KeyCodec.EncodeValue(c.operand) + rest;
    assert EncodeCheck(c) + rest == EncodeWord(c.column) + ([c.op] + r2);
    WordBack(c.column, [c.op] + r2);
    ByteBack(c.op, r2);
    KeyCodec.DecodeValueBack(c.operand, rest);
  }

  function EncodeFk(f: FkEntry): Bytes {
    EncodeList(EncodeWord, f.columns) + (EncodeString(f.refTable) + (EncodeList(EncodeWord, f.refColumns) + ([f.onDelete] +
      (EncodeString(f.childIndex) + EncodeString(f.refIndex)))))
  }

  function DecodeFk(b: Bytes): Option<(FkEntry, Bytes)> {
    match DecodeList(DecodeWord, b) case None => None case Some((columns, b1)) =>
    match DecodeString(b1) case None => None case Some((refTable, b2)) =>
    match DecodeList(DecodeWord, b2) case None => None case Some((refColumns, b3)) =>
    match DecodeByte(b3) case None => None case Some((onDelete, b4)) =>
    match DecodeString(b4) case None => None case Some((childIndex, b5)) =>
    match DecodeString(b5) case None => None case Some((refIndex, rest)) =>
      Some((FkEntry(columns, refTable, refColumns, onDelete, childIndex, refIndex), rest))
  }

  lemma FkBack(f: FkEntry, rest: Bytes)
    requires FkOk(f)
    ensures DecodeFk(EncodeFk(f) + rest) == Some((f, rest))
  {
    hide DecodeString, EncodeString, DecodeWord, EncodeWord, DecodeList, EncodeList, DecodeByte;
    var r5 := EncodeString(f.refIndex) + rest;
    var r4 := EncodeString(f.childIndex) + r5;
    var r3 := [f.onDelete] + r4;
    var r2 := EncodeList(EncodeWord, f.refColumns) + r3;
    var r1 := EncodeString(f.refTable) + r2;
    assert EncodeFk(f) + rest == EncodeList(EncodeWord, f.columns) + r1;
    WordsBack(f.columns, r1);
    StringBack(f.refTable, r2);
    WordsBack(f.refColumns, r3);
    ByteBack(f.onDelete, r4);
    StringBack(f.childIndex, r5);
    StringBack(f.refIndex, rest);
  }

  // ------------------------------------------------------------ tables and indexes

  function EncodeTable(t: TableEntry): Bytes {
    EncodeString(t.name) + (EncodeWord(t.root) + (EncodeList(EncodeWord, t.primaryKey) + (EncodeList(EncodeColumn, t.columns) +
      (EncodeList(EncodeCheck, t.checks) + (EncodeList(EncodeFk, t.foreignKeys) + EncodeString(t.createSql))))))
  }

  function DecodeTable(b: Bytes): Option<(TableEntry, Bytes)> {
    match DecodeString(b) case None => None case Some((name, b1)) =>
    match DecodeWord(b1) case None => None case Some((root, b2)) =>
    match DecodeList(DecodeWord, b2) case None => None case Some((primaryKey, b3)) =>
    match DecodeList(DecodeColumn, b3) case None => None case Some((columns, b4)) =>
    match DecodeList(DecodeCheck, b4) case None => None case Some((checks, b5)) =>
    match DecodeList(DecodeFk, b5) case None => None case Some((foreignKeys, b6)) =>
    match DecodeString(b6) case None => None case Some((createSql, rest)) =>
      Some((TableEntry(name, root, primaryKey, columns, checks, foreignKeys, createSql), rest))
  }

  lemma TablePartsBack(t: TableEntry)
    requires TableOk(t)
    ensures forall i :: 0 <= i < |t.columns| ==> ElementBack(EncodeColumn, DecodeColumn, t.columns[i])
    ensures forall i :: 0 <= i < |t.checks| ==> ElementBack(EncodeCheck, DecodeCheck, t.checks[i])
    ensures forall i :: 0 <= i < |t.foreignKeys| ==> ElementBack(EncodeFk, DecodeFk, t.foreignKeys[i])
  {
    hide EncodeColumn, DecodeColumn, EncodeCheck, DecodeCheck, EncodeFk, DecodeFk, ColumnOk, CheckOk, FkOk;
    forall i, r | 0 <= i < |t.columns| ensures DecodeColumn(EncodeColumn(t.columns[i]) + r) == Some((t.columns[i], r)) {
      ColumnBack(t.columns[i], r);
    }
    forall i, r | 0 <= i < |t.checks| ensures DecodeCheck(EncodeCheck(t.checks[i]) + r) == Some((t.checks[i], r)) {
      CheckBack(t.checks[i], r);
    }
    forall i, r | 0 <= i < |t.foreignKeys| ensures DecodeFk(EncodeFk(t.foreignKeys[i]) + r) == Some((t.foreignKeys[i], r)) {
      FkBack(t.foreignKeys[i], r);
    }
  }

  lemma TableBack(t: TableEntry, rest: Bytes)
    requires TableOk(t)
    ensures DecodeTable(EncodeTable(t) + rest) == Some((t, rest))
  {
    hide DecodeString, EncodeString, DecodeWord, EncodeWord, DecodeList, EncodeList, ElementBack, ColumnOk, CheckOk, FkOk;
    TablePartsBack(t);
    var r6 := EncodeString(t.createSql) + rest;
    var r5 := EncodeList(EncodeFk, t.foreignKeys) + r6;
    var r4 := EncodeList(EncodeCheck, t.checks) + r5;
    var r3 := EncodeList(EncodeColumn, t.columns) + r4;
    var r2 := EncodeList(EncodeWord, t.primaryKey) + r3;
    var r1 := EncodeWord(t.root) + r2;
    assert EncodeTable(t) + rest == EncodeString(t.name) + r1;
    StringBack(t.name, r1);
    WordBack(t.root, r2);
    WordsBack(t.primaryKey, r3);
    ListBack(EncodeColumn, DecodeColumn, t.columns, r4);
    ListBack(EncodeCheck, DecodeCheck, t.checks, r5);
    ListBack(EncodeFk, DecodeFk, t.foreignKeys, r6);
    StringBack(t.createSql, rest);
  }

  function EncodeIndex(x: IndexEntry): Bytes {
    EncodeString(x.name) + (EncodeString(x.table) + (EncodeList(EncodeString, x.columns) + (EncodeWord(x.root) + EncodeFlag(x.unique))))
  }

  function DecodeIndex(b: Bytes): Option<(IndexEntry, Bytes)> {
    match DecodeString(b) case None => None case Some((name, b1)) =>
    match DecodeString(b1) case None => None case Some((table, b2)) =>
    match DecodeList(DecodeString, b2) case None => None case Some((columns, b3)) =>
    match DecodeWord(b3) case None => None case Some((root, b4)) =>
    match DecodeFlag(b4) case None => None case Some((unique, rest)) => Some((IndexEntry(name, table, columns, root, unique), rest))
  }

  lemma IndexBack(x: IndexEntry, rest: Bytes)
    requires IndexOk(x)
    ensures DecodeIndex(EncodeIndex(x) + rest) == Some((x, rest))
  {
    hide DecodeString, EncodeString, DecodeWord, EncodeWord, DecodeList, EncodeList, DecodeFlag, EncodeFlag;
    var r4 := EncodeFlag(x.unique) + rest;
    var r3 := EncodeWord(x.root) + r4;
    var r2 := EncodeList(EncodeString, x.columns) + r3;
    var r1 := EncodeString(x.table) + r2;
    assert EncodeIndex(x) + rest == EncodeString(x.name) + r1;
    StringBack(x.name, r1);
    StringBack(x.table, r2);
    forall i, r | 0 <= i < |x.columns| ensures DecodeString(EncodeString(x.columns[i]) + r) == Some((x.columns[i], r)) {
      StringBack(x.columns[i], r);
    }
    ListBack(EncodeString, DecodeString, x.columns, r3);
    WordBack(x.root, r4);
    FlagBack(x.unique, rest);
  }

  // ------------------------------------------------------------ the page

  function EncodeEntries(tables: seq<TableEntry>, indexes: seq<IndexEntry>): Bytes {
    EncodeList(EncodeTable, tables) + EncodeList(EncodeIndex, indexes)
  }

  function TableName(t: TableEntry): Bytes { t.name }

  function IndexName(x: IndexEntry): Bytes { x.name }

  /** Entries are put into a map one after the other. */
  function ByName<T>(nameOf: T -> Bytes, entries: seq<T>): map<Bytes, T> {
    if entries == [] then map[]
    else
      var k := |entries| - 1;
      ByName(nameOf, entries[..k])[nameOf(entries[k]) := entries[k]]
  }

  /** CatalogManager::deserialize: a page that begins with four zeros is an empty catalog. */
  function Deserialize(data: Bytes): Option<Catalog> {
    if |data| < 4 then None
    else if data[..4] == [0, 0, 0, 0] then Some(Catalog(map[], map[]))
    else
      match DecodeList(DecodeTable, data) case None => None case Some((tables, rest)) =>
      match DecodeList(DecodeIndex, rest) case None => None case Some((indexes, _)) =>
        Some(Catalog(ByName(TableName, tables), ByName(IndexName, indexes)))
  }

  /** The list holds the entries of the map, each once, in some order. */
  ghost predicate Lists<T(!new)>(entries: seq<T>, nameOf: T -> Bytes, m: map<Bytes, T>) {
    && (forall x :: x in entries <==> nameOf(x) in m && m[nameOf(x)] == x)
    && |entries| == |m|
  }

  lemma {:induction false} ByNameMeans<T(!new)>(entries: seq<T>, nameOf: T -> Bytes, m: map<Bytes, T>)
    requires forall x :: x in entries ==> nameOf(x) in m && m[nameOf(x)] == x
    ensures forall n :: n in ByName(nameOf, entries) <==> exists i :: 0 <= i < |entries| && nameOf(entries[i]) == n
    ensures forall n :: n in ByName(nameOf, entries) ==> n in m && ByName(nameOf, entries)[n] == m[n]
  {
    if entries != [] {
      var k := |entries| - 1;
      assert entries[k] in entries;
      forall x | x in entries[..k] ensures x in entries {
      }
      ByNameMeans(entries[..k], nameOf, m);
      forall n ensures n in ByName(nameOf, entries) <==> exists i :: 0 <= i < |entries| && nameOf(entries[i]) == n {
        if i :| 0 <= i < |entries| && nameOf(entries[i]) == n {
          assert i < k ==> entries[..k][i] == entries[i];
        }
        if n in ByName(nameOf, entries[..k]) {
          var i :| 0 <= i < k && nameOf(entries[..k][i]) == n;
          assert nameOf(entries[i]) == n;
        }
      }
    }
  }

  lemma MapBack<T(!new)>(entries: seq<T>, nameOf: T -> Bytes, m: map<Bytes, T>)
    requires Lists(entries, nameOf, m) && forall n :: n in m ==> nameOf(m[n]) == n
    ensures ByName(nameOf, entries) == m
  {
    ByNameMeans(entries, nameOf, m);
    forall n | n in m ensures n in ByName(nameOf, entries) {
      assert m[n] in entries;
      var i :| 0 <= i < |entries| && entries[i] == m[n];
      assert nameOf(entries[i]) == n;
    }
  }

  /** The count comes first: four zeros exactly if there is no table. */
  lemma BeginsWithCount(tables: seq<TableEntry>, rest: Bytes)
    requires Word(|tables|)
    ensures |EncodeWord(|tables|) + rest| >= 4
    ensures (EncodeWord(|tables|) + rest)[..4] == [0, 0, 0, 0] <==> tables == []
  {
    var b := EncodeWord(|tables|);
    assert (b + rest)[..4] == b;
    WordBack(|tables|, []);
    assert b + [] == b && b[..4] == b;
    if b == [0, 0, 0, 0] {
      assert b[1..] == [0, 0, 0] && b[2..] == [0, 0] && b[3..] == [0];
      ZeroIsZero();
    }
    if tables == [] {
      assert EncodeWord(0) == [0] + LittleEndian(0, 3);
      assert LittleEndian(0, 3) == [0] + LittleEndian(0, 2);
    }
  }

  lemma ZeroIsZero()
    ensures FromLittleEndian([0, 0, 0, 0]) == 0
  {
    assert [0, 0, 0, 0][1..] == [0, 0, 0];
    assert [0, 0, 0][1..] == [0, 0];
    assert [0, 0][1..] == [0];
  }

  /** What persist writes to the page is read back as the catalog if and only if it has a table, or has no
      index either: without tables, the page begins with zeros and its indexes are not read. */
  lemma CatalogRoundTripIff(c: Catalog, tables: seq<TableEntry>, indexes: seq<IndexEntry>, padding: Bytes)
    requires CatalogOk(c) && Lists(tables, TableName, c.tables) && Lists(indexes, IndexName, c.indexes)
    ensures Deserialize(EncodeEntries(tables, indexes) + padding) == Some(c) <==> c.tables != map[] || c.indexes == map[]
  {
    hide DecodeList, EncodeList, DecodeWord, EncodeWord, DecodeTable, EncodeTable, DecodeIndex, EncodeIndex, TableOk, IndexOk, ElementBack;
    var rest := EncodeList(EncodeIndex, indexes) + padding;
    var data := EncodeEntries(tables, indexes) + padding;
    assert data == EncodeList(EncodeTable, tables) + rest;
    CountFirst(tables, rest);
    forall i | 0 <= i < |tables| ensures ElementBack(EncodeTable, DecodeTable, tables[i]) {
      assert tables[i] in tables;
      TableElementBack(tables[i]);
    }
    forall i | 0 <= i < |indexes| ensures ElementBack(EncodeIndex, DecodeIndex, indexes[i]) {
      assert indexes[i] in indexes;
      IndexElementBack(indexes[i]);
    }
    ListBack(EncodeTable, DecodeTable, tables, rest);
    ListBack(EncodeIndex, DecodeIndex, indexes, padding);
    MapBack(tables, TableName, c.tables);
    MapBack(indexes, IndexName, c.indexes);
  }

  lemma CountFirst(tables: seq<TableEntry>, rest: Bytes)
    requires Word(|tables|)
    ensures |EncodeList(EncodeTable, tables) + rest| >= 4
    ensures (EncodeList(EncodeTable, tables) + rest)[..4] == [0, 0, 0, 0] <==> tables == []
  {
    hide EncodeWord, EncodeAll, EncodeTable;
    assert EncodeList(EncodeTable, tables) + rest == EncodeWord(|tables|) + (EncodeAll(EncodeTable, tables) + rest);
    BeginsWithCount(tables, EncodeAll(EncodeTable, tables) + rest);
  }

  lemma TableElementBack(t: TableEntry)
    requires TableOk(t)
    ensures ElementBack(EncodeTable, DecodeTable, t)
  {
    hide EncodeTable, DecodeTable, TableOk;
    forall r ensures DecodeTable(EncodeTable(t) + r) == Some((t, r)) {
      TableBack(t, r);
    }
  }

  lemma IndexElementBack(x: IndexEntry)
    requires IndexOk(x)
    ensures ElementBack(EncodeIndex, DecodeIndex, x)
  {
    hide EncodeIndex, DecodeIndex, IndexOk;
    forall r ensures DecodeIndex(EncodeIndex(x) + r) == Some((x, r)) {
      IndexBack(x, r);
    }
  }

  /** The entries of a map, in the order its walk gives. */
  method EntriesOf<T(!new)>(m: map<Bytes, T>, nameOf: T -> Bytes) returns (entries: seq<T>)
    requires forall n :: n in m ==> nameOf(m[n]) == n
    ensures Lists(entries, nameOf, m)
  {
    var names := KeysOf(m);
    entries := [];
    for i := 0 to |names|
      invariant |entries| == i
      invariant forall x :: x in entries <==> nameOf(x) in m && m[nameOf(x)] == x && nameOf(x) in names[..i]
    {
      assert names[..i + 1] == names[..i] + [names[i]];
      entries := entries + [m[names[i]]];
    }
    assert names[..|names|] == names;
    assert (set n | n in names) == m.Keys;
    CountNames(names);
  }

  lemma {:induction false} CountNames(names: seq<Bytes>)
    requires forall i, j :: 0 <= i < j < |names| ==> names[i] != names[j]
    ensures |set n | n in names| == |names|
  {
    if names != [] {
      var k := |names| - 1;
      CountNames(names[..k]);
      assert (set n | n in names) == (set n | n in names[..k]) + {names[k]};
    }
  }

  /** CatalogManager::serialize: the entries are appended one after the other. */
  method SerializeEntries(tables: seq<TableEntry>, indexes: seq<IndexEntry>) returns (buf: Bytes)
    requires Word(|tables|) && Word(|indexes|)
    requires (forall t :: t in tables ==> TableOk(t)) && (forall x :: x in indexes ==> IndexOk(x))
    ensures buf == EncodeEntries(tables, indexes)
  {
    hide EncodeTable, EncodeIndex, TableOk, IndexOk, EncodeWord;
    buf := EncodeWord(|tables|);
    for i := 0 to |tables|
      invariant buf + EncodeAll(EncodeTable, tables[i..]) == EncodeList(EncodeTable, tables)
    {
      assert tables[i..][0] == tables[i] && tables[i..][1..] == tables[i + 1..];
      buf := buf + EncodeTable(tables[i]);
    }
    assert tables[|tables|..] == [];
    assert buf == EncodeList(EncodeTable, tables);
    buf := buf + EncodeWord(|indexes|);
    for i := 0 to |indexes|
      invariant buf + EncodeAll(EncodeIndex, indexes[i..]) == EncodeEntries(tables, indexes)
    {
      assert indexes[i..][0] == indexes[i] && indexes[i..][1..] == indexes[i + 1..];
      buf := buf + EncodeIndex(indexes[i]);
    }
    assert indexes[|indexes|..] == [];
  }

  /** CatalogManager::persist up to the write: the encoded catalog, padded with zeros to a page, or None if
      it does not fit one. */
  method Serialize(c: Catalog) returns (page: Option<Bytes>)
    requires CatalogOk(c)
    ensures page.Some? ==> |page.value| == PAGE_SIZE && (Deserialize(page.value) == Some(c) <==> c.tables != map[] || c.indexes == map[])
    ensures page.None? ==> exists tables, indexes ::
              Lists(tables, TableName, c.tables) && Lists(indexes, IndexName, c.indexes) && |EncodeEntries(tables, indexes)| > PAGE_SIZE
  {
    hide Deserialize, EncodeEntries, TableOk, IndexOk;
    var tables := EntriesOf(c.tables, TableName);
    var indexes := EntriesOf(c.indexes, IndexName);
    var buf := SerializeEntries(tables, indexes);
    if |buf| > PAGE_SIZE {
      return None;
    }
    var padding: Bytes := seq(PAGE_SIZE - |buf|, i => 0);
    CatalogRoundTripIff(c, tables, indexes, padding);
    page := Some(buf + padding);
  }
}
