/** Nodes as bytes: the cells of a page (src/btree/btree_node.cpp:92-249).

    The header fields are kept beside the page buffer; the cells lie in the buffer, written from its end
    towards the header.
 */
module NodeBytes {
  import opened Keys
  import opened Pages
  import opened ByteCodec
  import opened KeyCodec
  import opened Wrappers

  type PageBytes = seq<Byte>

  /** A cell holds what a leaf or an internal node has under a key. */
  datatype Cell = LeafCell(key: Key, value: PageBytes) | InternalCell(key: Key, child: nat)

  predicate CellOk(c: Cell) {
    Encodable(c.key) && match c case LeafCell(_, value) => |value| < 0x1_0000_0000 case InternalCell(_, child) => child < 0x1_0000_0000
  }

  function EncodeCell(c: Cell): PageBytes {
    match c
    case LeafCell(key, value) => EncodeKey(key) + (LittleEndian(|value|, 4) + value)
    case InternalCell(key, child) => EncodeKey(key) + LittleEndian(child, 4)
  }

  function DecodeCell(b: PageBytes, leaf: bool): Option<(Cell, PageBytes)> {
    match DecodeKey(b) case None => None case Some((key, rest)) =>
      match ReadNumber(rest, 4) case None => None case Some((n, after)) =>
        if !leaf then Some((InternalCell(key, n), after))
        else match ReadBytes(after, n) case None => None case Some((value, last)) => Some((LeafCell(key, value), last))
  }

  lemma DecodeCellBack(c: Cell, rest: PageBytes)
    requires CellOk(c)
    ensures DecodeCell(EncodeCell(c) + rest, c.LeafCell?) == Some((c, rest))
  {
    hide EncodeKey, DecodeKey, LittleEndian, FromLittleEndian, Power256, ReadNumber;
    Widths();
    match c {
      case LeafCell(key, value) =>
        assert EncodeCell(c) + rest == EncodeKey(key) + (LittleEndian(|value|, 4) + (value + rest));
        DecodeKeyBack(key, LittleEndian(|value|, 4) + (value + rest));
        ReadNumberBack(|value|, 4, value + rest);
        ReadBytesBack(value, rest);
      case InternalCell(key, child) =>
        assert EncodeCell(c) + rest == EncodeKey(key) + (LittleEndian(child, 4) + rest);
        DecodeKeyBack(key, LittleEndian(child, 4) + rest);
        ReadNumberBack(child, 4, rest);
    }
  }

  /** The cells back to back, in order. */
  function EncodeCells(cells: seq<Cell>): PageBytes {
    if cells == [] then [] else EncodeCell(cells[0]) + EncodeCells(cells[1..])
  }

  lemma EncodeCellNotEmpty(c: Cell)
    ensures |EncodeCell(c)| >= 6
  {
    EncodedKeySize(c.key);
  }

  predicate OneKind(cells: seq<Cell>, leaf: bool) {
    forall i :: 0 <= i < |cells| ==> CellOk(cells[i]) && cells[i].LeafCell? == leaf
  }

  /** What the reader of a page gets: cell after cell up to the end. */
  function DecodeCells(b: PageBytes, leaf: bool): Option<seq<Cell>>
    decreases |b|
  {
    if b == [] then Some([])
    else match DecodeCell(b, leaf) case None => None case Some((c, rest)) =>
      if |rest| >= |b| then None
      else match DecodeCells(rest, leaf) case None => None case Some(more) => Some([c] + more)
  }

  /** Reading back gives the cells that were written. */
  lemma {:induction false} DecodeCellsBack(cells: seq<Cell>, leaf: bool)
    requires OneKind(cells, leaf)
    ensures DecodeCells(EncodeCells(cells), leaf) == Some(cells)
  {
    hide EncodeCell, DecodeCell;
    if cells != [] {
      DecodeCellBack(cells[0], EncodeCells(cells[1..]));
      EncodeCellNotEmpty(cells[0]);
      DecodeCellsBack(cells[1..], leaf);
      assert [cells[0]] + cells[1..] == cells;
    }
  }

  // ------------------------------------------------------------ sizes

  function LeafCells(entries: seq<LeafEntry>): (cells: seq<Cell>)
    ensures |cells| == |entries|
  {
    seq(|entries|, i requires 0 <= i < |entries| => LeafCell(entries[i].key, entries[i].value))
  }

  /** The space the tree computes with is the space the encoded entries take. */
  lemma {:induction false} LeafBytesAreUsed(entries: seq<LeafEntry>)
    ensures |EncodeCells(LeafCells(entries))| == LeafUsed(entries)
  {
    hide EncodeKey, LittleEndian;
    if entries != [] {
      assert LeafCells(entries)[1..] == LeafCells(entries[1..]);
      EncodedKeySize(entries[0].key);
      LeafBytesAreUsed(entries[1..]);
    }
  }

  function InternalCells(cells: seq<InternalEntry>): (result: seq<Cell>)
    requires forall i :: 0 <= i < |cells| ==> cells[i].child >= 0
    ensures |result| == |cells|
  {
    seq(|cells|, i requires 0 <= i < |cells| => InternalCell(cells[i].key, cells[i].child))
  }

  lemma {:induction false} InternalBytesAreUsed(cells: seq<InternalEntry>)
    requires forall i :: 0 <= i < |cells| ==> cells[i].child >= 0
    ensures |EncodeCells(InternalCells(cells))| == InternalUsed(cells)
  {
    hide EncodeKey, LittleEndian;
    if cells != [] {
      assert InternalCells(cells)[1..] == InternalCells(cells[1..]);
      EncodedKeySize(cells[0].key);
      InternalBytesAreUsed(cells[1..]);
    }
  }

  /** These bytes are the cells of node n. */
  predicate EncodesNode(bytes: seq<Byte>, n: Page) {
    match n
    case Leaf(_, _, entries) => bytes == EncodeCells(LeafCells(entries))
    case Internal(_, _, cells) => (forall i :: 0 <= i < |cells| ==> cells[i].child >= 0) && bytes == EncodeCells(InternalCells(cells))
    case _ => false
  }

  lemma NodeBytesAreUsed(bytes: seq<Byte>, n: Page)
    requires EncodesNode(bytes, n)
    ensures |bytes| == Used(n)
  {
    match n {
      case Leaf(_, _, entries) => LeafBytesAreUsed(entries);
      case Internal(_, _, cells) => InternalBytesAreUsed(cells);
      case _ =>
    }
  }

  // ------------------------------------------------------------ a node over its page buffer

  class BTreeNode {
    const data: array<Byte>
    const leaf: bool
    var numCells: nat
    var freeSpacePtr: nat

    ghost predicate Valid()
      reads this, data
    {
      data.Length == PAGE_SIZE && NODE_HEADER_SIZE <= freeSpacePtr <= PAGE_SIZE
    }

    /** An empty node in a page of zeros (init_node). */
    constructor (leaf: bool)
      ensures Valid() && fresh(data) && this.leaf == leaf && numCells == 0 && data[freeSpacePtr..] == EncodeCells([])
    {
      this.leaf := leaf;
      data := new Byte[PAGE_SIZE](i => 0);
      numCells, freeSpacePtr := 0, PAGE_SIZE;
    }

    /** Bytes are copied into the buffer at a position. */
    method CopyIn(at: nat, bytes: PageBytes)
      requires Valid() && at + |bytes| <= PAGE_SIZE
      modifies data
      ensures data[at..at + |bytes|] == bytes
      ensures data[..at] == old(data[..at]) && data[at + |bytes|..] == old(data[at + |bytes|..])
    {
      for i := 0 to |bytes|
        invariant forall k :: 0 <= k < i ==> data[at + k] == bytes[k]
        invariant forall k :: 0 <= k < PAGE_SIZE && !(at <= k < at + i) ==> data[k] == old(data[k])
      {
        data[at + i] := bytes[i];
      }
    }

    /** Entries that fit are written back to front; the header is not touched. */
    method SetCells(cells: seq<Cell>)
      requires Valid() && OneKind(cells, leaf) && |EncodeCells(cells)| <= CAPACITY
      modifies data, this`numCells, this`freeSpacePtr
      ensures Valid() && numCells == |cells|
      ensures freeSpacePtr == PAGE_SIZE - |EncodeCells(cells)| && data[freeSpacePtr..] == EncodeCells(cells)
      ensures data[..NODE_HEADER_SIZE] == old(data[..NODE_HEADER_SIZE])
    {
      hide EncodeCell, OneKind;
      var writePtr := PAGE_SIZE;
      var i := |cells|;
      assert cells[i..] == [];
      while i > 0
        invariant Valid() && 0 <= i <= |cells| && NODE_HEADER_SIZE <= writePtr <= PAGE_SIZE
        invariant writePtr == PAGE_SIZE - |EncodeCells(cells[i..])| && data[writePtr..] == EncodeCells(cells[i..])
        invariant data[..NODE_HEADER_SIZE] == old(data[..NODE_HEADER_SIZE])
      {
        i := i - 1;
        assert cells[i..][0] == cells[i] && cells[i..][1..] == cells[i + 1..];
        SuffixSmaller(cells, i);
        var bytes := EncodeCell(cells[i]);
        writePtr := writePtr - |bytes|;
        CopyIn(writePtr, bytes);
        assert data[writePtr..] == data[writePtr..writePtr + |bytes|] + data[writePtr + |bytes|..];
        assert data[..NODE_HEADER_SIZE] == data[..writePtr][..NODE_HEADER_SIZE];
      }
      assert cells[0..] == cells;
      numCells, freeSpacePtr := |cells|, writePtr;
    }

    /** The cells are read forward from the free-space pointer to the end of the page. */
    method GetCells() returns (result: Option<seq<Cell>>)
      requires Valid()
      ensures result == DecodeCells(data[freeSpacePtr..], leaf)
      // what SetCells wrote is what is read
      ensures forall cells :: OneKind(cells, leaf) && data[freeSpacePtr..] == EncodeCells(cells) ==> result == Some(cells)
    {
      hide DecodeCell;
      var cells: seq<Cell> := [];
      var ptr := freeSpacePtr;
      assert forall more: seq<Cell> :: cells + more == more;
      while ptr < PAGE_SIZE
        invariant freeSpacePtr <= ptr <= PAGE_SIZE
        invariant DecodeCells(data[freeSpacePtr..], leaf)
               == match DecodeCells(data[ptr..], leaf) case None => None case Some(more) => Some(cells + more)
      {
        var next := DecodeCell(data[ptr..], leaf);
        if next.None? || |next.value.1| >= PAGE_SIZE - ptr {
          forall written: seq<Cell> | OneKind(written, leaf) ensures data[freeSpacePtr..] != EncodeCells(written) {
            DecodeCellsBack(written, leaf);
          }
          return None;
        }
        DecodedCellRest(data[ptr..], leaf);
        var c := next.value.0;
        assert forall more: seq<Cell> {:trigger [c] + more} :: cells + ([c] + more) == (cells + [c]) + more;
        cells, ptr := cells + [c], PAGE_SIZE - |next.value.1|;
      }
      assert cells + [] == cells;
      result := Some(cells);
      forall written: seq<Cell> | OneKind(written, leaf) && data[freeSpacePtr..] == EncodeCells(written)
        ensures result == Some(written)
      {
        DecodeCellsBack(written, leaf);
      }
    }

    method IsFull() returns (full: bool)
      requires Valid()
      ensures forall n: Page :: EncodesNode(data[freeSpacePtr..], n) ==> full == Pages.IsFull(n)
    {
      full := freeSpacePtr - NODE_HEADER_SIZE < SAFETY_MARGIN;
      forall n: Page | EncodesNode(data[freeSpacePtr..], n) ensures full == Pages.IsFull(n) {
        NodeBytesAreUsed(data[freeSpacePtr..], n);
      }
    }

    method IsUnderfull() returns (underfull: bool)
      requires Valid()
      ensures forall n: Page :: EncodesNode(data[freeSpacePtr..], n) ==> underfull == Pages.IsUnderfull(n)
    {
      underfull := PAGE_SIZE - freeSpacePtr < (PAGE_SIZE - NODE_HEADER_SIZE) / 2;
      forall n: Page | EncodesNode(data[freeSpacePtr..], n) ensures underfull == Pages.IsUnderfull(n) {
        NodeBytesAreUsed(data[freeSpacePtr..], n);
      }
    }
  }

  lemma {:induction false} SuffixSmaller(cells: seq<Cell>, i: nat)
    requires i <= |cells|
    ensures |EncodeCells(cells[i..])| <= |EncodeCells(cells)|
  {
    if i == 0 {
      assert cells[0..] == cells;
    } else {
      SuffixSmaller(cells[1..], i - 1);
      assert cells[1..][i - 1..] == cells[i..];
    }
  }

  /** What is left after one cell is the end of the bytes. */
  lemma DecodedCellRest(b: PageBytes, leaf: bool)
    requires DecodeCell(b, leaf).Some?
    ensures |DecodeCell(b, leaf).value.1| <= |b| && DecodeCell(b, leaf).value.1 == b[|b| - |DecodeCell(b, leaf).value.1|..]
  {
    hide FromLittleEndian;
    DecodedKeyRest(b);
  }

  lemma {:induction false} DecodedValuesRest(b: PageBytes, n: nat)
    requires DecodeValues(b, n).Some?
    ensures |DecodeValues(b, n).value.1| <= |b| && DecodeValues(b, n).value.1 == b[|b| - |DecodeValues(b, n).value.1|..]
  {
    hide DecodeValue;
    if n > 0 {
      DecodedRest(b);
      DecodedValuesRest(DecodeValue(b).value.1, n - 1);
    }
  }

  lemma DecodedKeyRest(b: PageBytes)
    requires DecodeKey(b).Some?
    ensures |DecodeKey(b).value.1| <= |b| && DecodeKey(b).value.1 == b[|b| - |DecodeKey(b).value.1|..]
  {
    hide FromLittleEndian, DecodeValues;
    var (n, rest) := ReadNumber(b, 2).value;
    DecodedValuesRest(rest, n);
  }
}
