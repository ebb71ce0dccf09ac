/** Pages as the B+ tree sees them (src/btree/btree_node.h, src/btree/free_list_manager.cpp).

    A page holds one node, one free-list record or the database header.  Byte layout is the business
    of module NodeBytes; here a node is its header fields and its entries in order.
 */
module Pages {
  import opened Keys

  type Bytes = seq<Byte>

  /** Page numbers are unbounded: 32-bit wrap-around is not modelled, so the all-ones sentinels
      INVALID_PAGE and NO_FREE_PAGE are -1. */
  type PageId = int
  const INVALID_PAGE: PageId := -1
  const NO_FREE_PAGE: PageId := -1
  const HEADER_PAGE_ID: PageId := 0

  const PAGE_SIZE := 4096
  const NODE_HEADER_SIZE := 17
  const CAPACITY := PAGE_SIZE - NODE_HEADER_SIZE
  const SAFETY_MARGIN := 64

  datatype LeafEntry = LeafEntry(key: Key, value: Bytes)
  datatype InternalEntry = InternalEntry(key: Key, child: PageId)

  datatype Page =
    | Leaf(parent: PageId, next: PageId, entries: seq<LeafEntry>)
    | Internal(parent: PageId, rightmost: PageId, cells: seq<InternalEntry>)
    | FreeRecord(nextFree: PageId)
    | Header(firstFree: PageId)
    | Blank

  function WithParent(page: Page, parent: PageId): Page {
    match page
    case Leaf(_, next, entries) => Leaf(parent, next, entries)
    case Internal(_, rightmost, cells) => Internal(parent, rightmost, cells)
    case _ => page
  }

  function ParentOf(page: Page): PageId {
    match page
    case Leaf(parent, _, _) => parent
    case Internal(parent, _, _) => parent
    case _ => INVALID_PAGE
  }

  /** Child number i of an internal node; child |cells| is the rightmost one. */
  function Child(node: Page, i: nat): PageId
    requires node.Internal? && i <= |node.cells|
  {
    if i < |node.cells| then node.cells[i].child else node.rightmost
  }

  function Kids(node: Page): (kids: seq<PageId>)
    requires node.Internal?
    ensures |kids| == |node.cells| + 1
    ensures forall i :: 0 <= i < |kids| ==> kids[i] == Child(node, i)
  {
    seq(|node.cells| + 1, i requires 0 <= i <= |node.cells| => Child(node, i))
  }

  // ------------------------------------------------------------ encoded sizes

  function ValueSize(v: Value): nat {
    match v
    case Null => 1
    case Int(_) => 5
    case Float(_) => 5
    case Bool(_) => 2
    case Varchar(s) => 5 + |s|
  }

  function ValuesSize(key: Key): nat {
    if key == [] then 0 else ValueSize(key[0]) + ValuesSize(key[1..])
  }

  function KeySize(key: Key): nat { 2 + ValuesSize(key) }

  function LeafEntrySize(e: LeafEntry): nat { KeySize(e.key) + 4 + |e.value| }

  function InternalEntrySize(key: Key): nat { KeySize(key) + 4 }

  function LeafUsed(entries: seq<LeafEntry>): nat {
    if entries == [] then 0 else LeafEntrySize(entries[0]) + LeafUsed(entries[1..])
  }

  function InternalUsed(cells: seq<InternalEntry>): nat {
    if cells == [] then 0 else InternalEntrySize(cells[0].key) + InternalUsed(cells[1..])
  }

  function Used(page: Page): nat {
    match page
    case Leaf(_, _, entries) => LeafUsed(entries)
    case Internal(_, _, cells) => InternalUsed(cells)
    case _ => 0
  }

  predicate IsFull(page: Page) { CAPACITY - Used(page) < SAFETY_MARGIN }

  predicate IsUnderfull(page: Page) { Used(page) < CAPACITY / 2 }
}
