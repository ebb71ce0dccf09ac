/** With keys of one size and values of one size, every page of a tree keeps fitting its bytes
    (src/btree/btree_node.cpp:222-249, src/btree/btree.cpp:101-944). */
module PageSizes {
  import opened Keys
  import opened Pages
  import opened TreeShape
  import opened InsertSteps
  import opened RemoveSteps
  import opened ShiftSteps
  import opened Cascade
  import opened Space

  /** The bytes of every key, and of every value. */
  datatype Sizes = Sizes(key: nat, value: nat)

  function EntrySize(z: Sizes): (s: nat)
    ensures s > 0
  {
    z.key + 4 + z.value
  }

  function CellSize(z: Sizes): (s: nat)
    ensures s > 0
  {
    z.key + 4
  }

  /** How many entries fit a page, and how many an underfull page holds at most. */
  function MaxEntries(z: Sizes): nat { CAPACITY / EntrySize(z) }

  function MaxCells(z: Sizes): nat { CAPACITY / CellSize(z) }

  function HalfEntries(z: Sizes): nat { (CAPACITY / 2 - 1) / EntrySize(z) }

  function HalfCells(z: Sizes): nat { (CAPACITY / 2 - 1) / CellSize(z) }

  /** Two underfull internal nodes fit one page together with the separator between them. */
  predicate MergesFit(z: Sizes) { 2 * HalfCells(z) + 1 <= MaxCells(z) }

  predicate SizedEntry(e: LeafEntry, z: Sizes) { KeySize(e.key) == z.key && |e.value| == z.value }

  /** The node's keys and values have these sizes, and the node fits. */
  predicate SizedNode(n: Page, z: Sizes) {
    match n
    case Leaf(_, _, entries) => |entries| <= MaxEntries(z) && forall i :: 0 <= i < |entries| ==> SizedEntry(entries[i], z)
    case Internal(_, _, cells) => |cells| <= MaxCells(z) && forall i :: 0 <= i < |cells| ==> KeySize(cells[i].key) == z.key
    case _ => true
  }

  ghost predicate AllSized(t: Tree, z: Sizes) {
    forall p :: p in t.info && p in t.pages ==> SizedNode(t.pages[p], z)
  }

  // ------------------------------------------------------------ bytes and counts

  lemma CountFits(count: nat, size: nat, room: nat)
    requires size > 0
    ensures count * size <= room <==> count <= room / size
  {
    var q := room / size;
    assert room == q * size + room % size;
    if count <= q {
      Times(count, q, size);
    } else {
      Times(q + 1, count, size);
      assert (q + 1) * size == q * size + size;
    }
  }

  lemma Times(x: nat, y: nat, size: nat)
    requires x <= y
    ensures x * size <= y * size
  {
  }

  /** In a leaf of such entries, bytes are counts. */
  lemma SizedLeaf(n: Page, z: Sizes)
    requires n.Leaf? && SizedNode(n, z)
    ensures Used(n) == |n.entries| * EntrySize(z) && Fits(n)
    ensures IsUnderfull(n) <==> |n.entries| <= HalfEntries(z)
    ensures EntrySize(z) <= CAPACITY - Used(n) <==> |n.entries| + 1 <= MaxEntries(z)
  {
    hide KeySize, LeafUsed;
    forall i | 0 <= i < |n.entries| ensures LeafEntrySize(n.entries[i]) == EntrySize(z) {
      assert SizedEntry(n.entries[i], z);
    }
    UniformUsed(n.entries, EntrySize(z));
    CountFits(|n.entries|, EntrySize(z), CAPACITY);
    CountFits(|n.entries|, EntrySize(z), CAPACITY / 2 - 1);
    CountFits(|n.entries| + 1, EntrySize(z), CAPACITY);
    assert (|n.entries| + 1) * EntrySize(z) == |n.entries| * EntrySize(z) + EntrySize(z);
  }

  lemma SizedInternal(n: Page, z: Sizes)
    requires n.Internal? && SizedNode(n, z)
    ensures Used(n) == |n.cells| * CellSize(z) && Fits(n)
    ensures IsUnderfull(n) <==> |n.cells| <= HalfCells(z)
    ensures CellSize(z) <= CAPACITY - Used(n) <==> |n.cells| + 1 <= MaxCells(z)
  {
    hide KeySize, InternalUsed;
    UniformCellsUsed(n.cells, CellSize(z));
    CountFits(|n.cells|, CellSize(z), CAPACITY);
    CountFits(|n.cells|, CellSize(z), CAPACITY / 2 - 1);
    CountFits(|n.cells| + 1, CellSize(z), CAPACITY);
    assert (|n.cells| + 1) * CellSize(z) == |n.cells| * CellSize(z) + CellSize(z);
  }

  /** A whole tree of such entries fits its pages. */
  lemma SizedFits(t: Tree, z: Sizes, p: PageId)
    requires AllSized(t, z) && p in t.info && p in t.pages
    ensures Fits(t.pages[p])
  {
    if t.pages[p].Leaf? {
      SizedLeaf(t.pages[p], z);
    } else if t.pages[p].Internal? {
      SizedInternal(t.pages[p], z);
    }
  }

  lemma HalvesFit(size: nat)
    requires 0 < size
    ensures 2 * ((CAPACITY / 2 - 1) / size) <= CAPACITY / size
    ensures size <= CAPACITY / 2 ==> (CAPACITY / 2 - 1) / size + 1 <= CAPACITY / size
  {
    var half := (CAPACITY / 2 - 1) / size;
    CountFits(half, size, CAPACITY / 2 - 1);
    CountFits(2 * half, size, CAPACITY);
    CountFits(half + 1, size, CAPACITY);
    assert 2 * half * size == half * size + half * size;
    assert (half + 1) * size == half * size + size;
  }

  /** The condition is exact: the two fullest of the underfull nodes merge into one that fits if and only if
      it holds, and any other two need less. */
  lemma MergesFitIff(z: Sizes, a: Page, sep: Key, b: Page)
    requires a.Internal? && b.Internal? && SizedNode(a, z) && SizedNode(b, z) && KeySize(sep) == z.key
    requires IsUnderfull(a) && IsUnderfull(b)
    ensures MergesFit(z) ==> Fits(JoinedNode(a, sep, b))
    ensures |a.cells| == |b.cells| == HalfCells(z) ==> (Fits(JoinedNode(a, sep, b)) <==> MergesFit(z))
  {
    hide KeySize, InternalUsed;
    SizedInternal(a, z);
    SizedInternal(b, z);
    var cells := JoinedNode(a, sep, b).cells;
    UniformCellsUsed(cells, CellSize(z));
    CountFits(|cells|, CellSize(z), CAPACITY);
  }

  /** In numbers; with one INT as the key it does not hold. */
  lemma MergesFitInNumbers(z: Sizes)
    ensures MergesFit(z) <==> CellSize(z) <= 2 * ((CAPACITY / 2 - 1) % CellSize(z)) + 3
    ensures z.key == KeySize([Int(0)]) ==> !MergesFit(z)
  {
    var s, h := CellSize(z), HalfCells(z);
    CountFits(2 * h + 1, s, CAPACITY);
    assert CAPACITY / 2 - 1 == h * s + (CAPACITY / 2 - 1) % s;
    assert (2 * h + 1) * s == 2 * (h * s) + s;
    IntKeySize(0);
  }

  // ------------------------------------------------------------ steps that only divide or drop

  lemma ParentIsNoMatter(n: Page, parent: PageId, z: Sizes)
    ensures SizedNode(WithParent(n, parent), z) <==> SizedNode(n, z)
  {
  }

  lemma ReparentSized(pages: map<PageId, Page>, kids: seq<PageId>, parent: PageId, z: Sizes)
    ensures forall p :: p in pages ==> (SizedNode(Reparent(pages, kids, parent)[p], z) <==> SizedNode(pages[p], z))
  {
    hide SizedNode;
    forall p | p in pages ensures SizedNode(Reparent(pages, kids, parent)[p], z) <==> SizedNode(pages[p], z) {
      ParentIsNoMatter(pages[p], parent, z);
    }
  }

  lemma SplitLeafSized(t: Tree, p: PageId, r: PageId, mid: nat, z: Sizes)
    requires AllSized(t, z) && p in t.info && p in t.pages && t.pages[p].Leaf? && mid < |t.pages[p].entries|
    ensures AllSized(SplitLeaf(t, p, r, mid), z) && KeySize(t.pages[p].entries[mid].key) == z.key
  {
    hide MaxEntries, MaxCells, KeySize;
    assert SizedNode(t.pages[p], z);
    assert SizedEntry(t.pages[p].entries[mid], z);
  }

  lemma SplitInternalSized(t: Tree, p: PageId, r: PageId, mid: nat, z: Sizes)
    requires AllSized(t, z) && p in t.info && p in t.pages && t.pages[p].Internal? && mid < |t.pages[p].cells|
    ensures AllSized(SplitInternal(t, p, r, mid), z) && KeySize(t.pages[p].cells[mid].key) == z.key
  {
    hide MaxEntries, MaxCells, KeySize;
    assert SizedNode(t.pages[p], z);
    var n := t.pages[p];
    var right := Internal(n.parent, n.rightmost, n.cells[mid + 1..]);
    var pages := t.pages[p := Internal(n.parent, n.cells[mid].child, n.cells[..mid])][r := right];
    assert SizedNode(pages[p], z) && SizedNode(right, z);
    hide SizedNode;
    ReparentSized(pages, Kids(right), r, z);
  }

  lemma DropEntrySized(t: Tree, p: PageId, i: nat, z: Sizes)
    requires AllSized(t, z) && p in t.info && p in t.pages && t.pages[p].Leaf? && i < |t.pages[p].entries|
    ensures AllSized(DropEntry(t, p, i), z)
  {
    hide MaxEntries, MaxCells, KeySize, SizedEntry;
    assert SizedNode(t.pages[p], z);
  }

  lemma CollapseRootSized(t: Tree, z: Sizes)
    requires AllSized(t, z) && t.root in t.pages && t.pages[t.root].Internal? && t.pages[t.root].rightmost in t.pages
    requires t.pages[t.root].rightmost in t.info
    ensures AllSized(CollapseRoot(t), z)
  {
    hide SizedNode;
    ParentIsNoMatter(t.pages[t.pages[t.root].rightmost], INVALID_PAGE, z);
  }

  // ------------------------------------------------------------ steps that add

  lemma GrowRootSized(t: Tree, left: PageId, sep: Key, right: PageId, top: PageId, z: Sizes)
    requires AllSized(t, z) && left in t.info && right in t.info && left in t.pages && right in t.pages
    requires KeySize(sep) == z.key && 1 <= MaxCells(z)
    ensures AllSized(GrowRoot(t, left, sep, right, top), z)
  {
    hide MaxEntries, MaxCells, KeySize, SizedEntry;
    assert SizedNode(Internal(INVALID_PAGE, right, [InternalEntry(sep, left)]), z);
    assert SizedNode(t.pages[left], z) && SizedNode(t.pages[right], z);
    hide SizedNode;
    ParentIsNoMatter(t.pages[left], top, z);
    ParentIsNoMatter(t.pages[right], top, z);
  }

  lemma LinkRightSized(t: Tree, left: PageId, sep: Key, right: PageId, p: PageId, i: nat, z: Sizes)
    requires AllSized(t, z) && left in t.info && right in t.info && right in t.pages && p in t.info
    requires p in t.pages && t.pages[p].Internal? && i <= |t.pages[p].cells|
    requires KeySize(sep) == z.key && |t.pages[p].cells| + 1 <= MaxCells(z)
    ensures AllSized(LinkRight(t, left, sep, right, p, i), z)
  {
    hide MaxEntries, MaxCells, KeySize, SizedEntry;
    assert SizedNode(t.pages[p], z);
    assert SizedNode(LinkedNode(t.pages[p], i, left, sep, right), z);
    assert SizedNode(t.pages[right], z);
    hide SizedNode, LinkedNode;
    ParentIsNoMatter(t.pages[right], p, z);
  }

  lemma AddEntrySized(t: Tree, p: PageId, i: nat, e: LeafEntry, z: Sizes)
    requires AllSized(t, z) && p in t.info && p in t.pages && t.pages[p].Leaf? && i <= |t.pages[p].entries|
    requires SizedEntry(e, z) && |t.pages[p].entries| + 1 <= MaxEntries(z)
    ensures AllSized(AddEntry(t, p, i, e), z)
  {
    hide MaxEntries, MaxCells, SizedEntry;
    assert SizedNode(t.pages[p], z);
  }

  // ------------------------------------------------------------ steps between neighbours

  lemma ReseparatedSized(n: Page, j: nat, sep: Key, z: Sizes)
    requires n.Internal? && j < |n.cells| && SizedNode(n, z) && KeySize(sep) == z.key
    ensures SizedNode(Reseparated(n, j, sep), z)
  {
    hide KeySize;
  }

  lemma UnlinkedSized(n: Page, j: nat, into: PageId, z: Sizes)
    requires n.Internal? && j < |n.cells| && SizedNode(n, z)
    ensures SizedNode(UnlinkedNode(n, j, into), z)
  {
    hide KeySize;
  }

  lemma ShiftLeavesSized(t: Tree, p: PageId, j: nat, x: nat, z: Sizes)
    requires AllSized(t, z) && p in t.info && p in t.pages && t.pages[p].Internal? && j < |t.pages[p].cells|
    requires Child(t.pages[p], j) in t.info && Child(t.pages[p], j + 1) in t.info
    requires Child(t.pages[p], j) in t.pages && t.pages[Child(t.pages[p], j)].Leaf?
    requires Child(t.pages[p], j + 1) in t.pages && t.pages[Child(t.pages[p], j + 1)].Leaf?
    requires var all := |t.pages[Child(t.pages[p], j)].entries| + |t.pages[Child(t.pages[p], j + 1)].entries|;
      x < all && x <= MaxEntries(z) && all - x <= MaxEntries(z)
    ensures AllSized(ShiftLeaves(t, p, j, x), z)
  {
    hide MaxEntries, MaxCells, KeySize;
    var a, b := Child(t.pages[p], j), Child(t.pages[p], j + 1);
    assert SizedNode(t.pages[a], z) && SizedNode(t.pages[b], z) && SizedNode(t.pages[p], z);
    var all := t.pages[a].entries + t.pages[b].entries;
    assert forall i :: 0 <= i < |all| ==> SizedEntry(all[i], z);
    assert SizedEntry(all[x], z);
    ReseparatedSized(t.pages[p], j, all[x].key, z);
    assert SizedNode(t.pages[a].(entries := all[..x]), z) && SizedNode(t.pages[b].(entries := all[x..]), z);
    hide SizedNode, SizedEntry, Reseparated;
  }

  lemma ShiftInternalsSized(t: Tree, p: PageId, j: nat, x: nat, z: Sizes)
    requires AllSized(t, z) && p in t.info && p in t.pages && t.pages[p].Internal? && j < |t.pages[p].cells|
    requires Child(t.pages[p], j) in t.info && Child(t.pages[p], j + 1) in t.info
    requires Child(t.pages[p], j) in t.pages && t.pages[Child(t.pages[p], j)].Internal?
    requires Child(t.pages[p], j + 1) in t.pages && t.pages[Child(t.pages[p], j + 1)].Internal?
    requires var all := |t.pages[Child(t.pages[p], j)].cells| + |t.pages[Child(t.pages[p], j + 1)].cells|;
      x <= all && x <= MaxCells(z) && all - x <= MaxCells(z)
    ensures AllSized(ShiftInternals(t, p, j, x), z)
  {
    hide MaxEntries, MaxCells, KeySize;
    var n, a, b := t.pages[p], Child(t.pages[p], j), Child(t.pages[p], j + 1);
    assert SizedNode(t.pages[a], z) && SizedNode(t.pages[b], z) && SizedNode(n, z);
    var all := JoinedNode(t.pages[a], n.cells[j].key, t.pages[b]);
    assert forall i :: 0 <= i < |all.cells| ==> KeySize(all.cells[i].key) == z.key;
    ReseparatedSized(n, j, all.cells[x].key, z);
    var left, right := Internal(p, all.cells[x].child, all.cells[..x]), Internal(p, all.rightmost, all.cells[x + 1..]);
    assert SizedNode(left, z) && SizedNode(right, z);
    hide SizedNode, Reseparated, JoinedNode;
    var pages := t.pages[p := Reseparated(n, j, all.cells[x].key)][a := left][b := right];
    ReparentSized(pages, Kids(t.pages[b]), a, z);
    ReparentSized(Reparent(pages, Kids(t.pages[b]), a), Kids(right), b, z);
  }

  lemma MergeLeavesSized(t: Tree, p: PageId, j: nat, z: Sizes)
    requires AllSized(t, z) && p in t.info && p in t.pages && t.pages[p].Internal? && j < |t.pages[p].cells|
    requires Child(t.pages[p], j) in t.info && Child(t.pages[p], j + 1) in t.info
    requires Child(t.pages[p], j) in t.pages && t.pages[Child(t.pages[p], j)].Leaf?
    requires Child(t.pages[p], j + 1) in t.pages && t.pages[Child(t.pages[p], j + 1)].Leaf?
    requires |t.pages[Child(t.pages[p], j)].entries| + |t.pages[Child(t.pages[p], j + 1)].entries| <= MaxEntries(z)
    ensures AllSized(MergeLeaves(t, p, j), z)
  {
    hide MaxEntries, MaxCells, KeySize, SizedEntry;
    var a, b := Child(t.pages[p], j), Child(t.pages[p], j + 1);
    assert SizedNode(t.pages[a], z) && SizedNode(t.pages[b], z) && SizedNode(t.pages[p], z);
    assert SizedNode(Leaf(t.pages[a].parent, t.pages[b].next, t.pages[a].entries + t.pages[b].entries), z);
    UnlinkedSized(t.pages[p], j, a, z);
    hide SizedNode, UnlinkedNode;
  }

  lemma MergeInternalsSized(t: Tree, p: PageId, j: nat, z: Sizes)
    requires AllSized(t, z) && p in t.info && p in t.pages && t.pages[p].Internal? && j < |t.pages[p].cells|
    requires Child(t.pages[p], j) in t.info && Child(t.pages[p], j + 1) in t.info
    requires Child(t.pages[p], j) in t.pages && t.pages[Child(t.pages[p], j)].Internal?
    requires Child(t.pages[p], j + 1) in t.pages && t.pages[Child(t.pages[p], j + 1)].Internal?
    requires |t.pages[Child(t.pages[p], j)].cells| + 1 + |t.pages[Child(t.pages[p], j + 1)].cells| <= MaxCells(z)
    ensures AllSized(MergeInternals(t, p, j), z)
  {
    hide MaxEntries, MaxCells, KeySize, SizedEntry;
    var n, a, b := t.pages[p], Child(t.pages[p], j), Child(t.pages[p], j + 1);
    assert SizedNode(t.pages[a], z) && SizedNode(t.pages[b], z) && SizedNode(n, z);
    var merged := JoinedNode(t.pages[a], n.cells[j].key, t.pages[b]);
    assert SizedNode(merged, z);
    UnlinkedSized(n, j, a, z);
    hide SizedNode, UnlinkedNode, JoinedNode;
    ReparentSized(t.pages[a := merged][p := UnlinkedNode(n, j, a)], Kids(t.pages[b]), a, z);
  }

  // ------------------------------------------------------------ what operations promise, for all sizes

  /** Whatever the sizes are, if all pages were of them and fitted before, so it is now. */
  ghost predicate KeepsSizes(t: Tree, t': Tree) {
    forall z: Sizes :: AllSized(t, z) ==> AllSized(t', z)
  }

  /** The same, if two underfull internal nodes fit one page with their separator. */
  ghost predicate MergingKeepsSizes(t: Tree, t': Tree) {
    forall z: Sizes :: AllSized(t, z) && MergesFit(z) ==> AllSized(t', z)
  }

  ghost predicate DividesSizes(t: Tree, t': Tree, sep: Key) {
    forall z: Sizes :: AllSized(t, z) ==> AllSized(t', z) && KeySize(sep) == z.key
  }

  ghost predicate LinksSizes(t: Tree, t': Tree, sep: Key) {
    forall z: Sizes :: AllSized(t, z) && KeySize(sep) == z.key ==> AllSized(t', z)
  }

  function CellCount(t: Tree, p: PageId): nat {
    if p in t.pages && t.pages[p].Internal? then |t.pages[p].cells| else 0
  }

  /** The page that takes the separator must have room for it. */
  ghost predicate LinksWithRoom(t: Tree, t': Tree, sep: Key, p: PageId) {
    forall z: Sizes :: AllSized(t, z) && KeySize(sep) == z.key && CellCount(t, p) + 1 <= MaxCells(z) ==> AllSized(t', z)
  }

  ghost predicate AddsSizes(t: Tree, t': Tree, e: LeafEntry) {
    forall z: Sizes :: AllSized(t, z) && SizedEntry(e, z) ==> AllSized(t', z)
  }

  ghost predicate AddsWithRoom(t: Tree, t': Tree, e: LeafEntry, entries: nat) {
    forall z: Sizes :: AllSized(t, z) && SizedEntry(e, z) && entries + 1 <= MaxEntries(z) ==> AllSized(t', z)
  }

  ghost predicate SamePages(t: Tree, t': Tree) {
    t'.info == t.info && forall q :: q in t.info ==> q in t.pages && q in t'.pages && t'.pages[q] == t.pages[q]
  }

  lemma SameSizes(t: Tree, t': Tree)
    requires SamePages(t, t')
    ensures KeepsSizes(t, t')
  {
    hide SizedNode;
  }

  /** The parents of what were children of the page have at most half as many separators as it had. */
  ghost predicate HalvedAbove(t: Tree, t': Tree, page: PageId) {
    && page in t.info && page in t.pages && t.pages[page].Internal?
    && forall c :: c in t.info && c in t.pages && t.info[c].level + 1 == t.info[page].level && ParentOf(t.pages[c]) == page ==>
         && c in t'.pages
         && var q := ParentOf(t'.pages[c]);
         && q in t'.info && t'.info[q].level == t.info[page].level
         && q in t'.pages && t'.pages[q].Internal? && 2 * |t'.pages[q].cells| <= |t.pages[page].cells|
  }

  // ------------------------------------------------------------ insertion

  lemma DivideLeafSizes(t0: Tree, t1: Tree, p: PageId, r: PageId, mid: nat)
    requires SamePages(t0, t1) && p in t1.info && t1.pages[p].Leaf? && mid < |t1.pages[p].entries|
    ensures DividesSizes(t0, SplitLeaf(t1, p, r, mid), t1.pages[p].entries[mid].key)
  {
    hide AllSized, KeySize;
    SameSizes(t0, t1);
    forall z: Sizes | AllSized(t0, z) ensures AllSized(SplitLeaf(t1, p, r, mid), z) && KeySize(t1.pages[p].entries[mid].key) == z.key {
      SplitLeafSized(t1, p, r, mid, z);
    }
  }

  lemma DivideInternalSizes(t0: Tree, t1: Tree, p: PageId, r: PageId, mid: nat)
    requires SamePages(t0, t1) && p in t1.info && t1.pages[p].Internal? && mid < |t1.pages[p].cells|
    ensures DividesSizes(t0, SplitInternal(t1, p, r, mid), t1.pages[p].cells[mid].key)
  {
    hide AllSized, KeySize;
    SameSizes(t0, t1);
    forall z: Sizes | AllSized(t0, z) ensures AllSized(SplitInternal(t1, p, r, mid), z) && KeySize(t1.pages[p].cells[mid].key) == z.key {
      SplitInternalSized(t1, p, r, mid, z);
    }
  }

  lemma DivideInternalHalves(t0: Tree, t1: Tree, p: PageId, r: PageId, mid: nat)
    requires SamePages(t0, t1) && p in t1.info && r !in t1.info && t1.pages[p].Internal?
    requires mid == |t1.pages[p].cells| / 2 && mid < |t1.pages[p].cells|
    ensures HalvedAbove(t0, SplitInternal(t1, p, r, mid), p)
  {
  }

  /** What happens on the page's level and above leaves the halves as they are. */
  lemma HalvedAboveStays(t0: Tree, t1: Tree, page: PageId, right: PageId, t2: Tree, l: nat)
    requires HalvedAbove(t0, t1, page) && page in t1.info && right in t1.info && t0.info[page].level == l > 0
    requires forall q :: q in t1.info ==> q in t1.pages
    requires SameUpTo(t1.(info := Listed(t1.info, page, right)), t2, l) && SameUpTo(t0, t1, l - 1)
    ensures HalvedAbove(t0, t2, page)
  {
    hide SameUpTo;
    LevelsStay(t0, t1, l - 1);
    forall c | c in t0.info && c in t0.pages && t0.info[c].level + 1 == l && ParentOf(t0.pages[c]) == page
      ensures c in t2.pages
      ensures var q := ParentOf(t2.pages[c]);
        && q in t2.info && t2.info[q].level == l
        && q in t2.pages && t2.pages[q].Internal? && 2 * |t2.pages[q].cells| <= |t0.pages[page].cells|
    {
      assert c in t1.info && t1.info[c].level == l - 1;
      OneStays(t1, page, right, t2, l, c, ParentOf(t1.pages[c]));
    }
  }

  lemma LevelsStay(t: Tree, t': Tree, l: nat)
    requires SameUpTo(t, t', l)
    ensures forall p :: p in t.info ==> p in t'.info && t'.info[p].level == t.info[p].level
  {
  }

  lemma OneStays(t1: Tree, page: PageId, right: PageId, t2: Tree, l: nat, c: PageId, q: PageId)
    requires page in t1.info && right in t1.info && l > 0
    requires c in t1.info && c in t1.pages && t1.info[c].level == l - 1 && q in t1.info && q in t1.pages && t1.info[q].level == l
    requires SameUpTo(t1.(info := Listed(t1.info, page, right)), t2, l)
    ensures c in t2.pages && t2.pages[c] == t1.pages[c]
    ensures q in t2.info && t2.info[q].level == l && q in t2.pages && t2.pages[q] == WithParent(t1.pages[q], ParentOf(t2.pages[q]))
  {
    var listed := Listed(t1.info, page, right);
    assert c in listed && listed[c].level == l - 1 && q in listed && listed[q].level == l;
  }

  lemma SplitSizes(t0: Tree, t1: Tree, t2: Tree, sep: Key)
    requires DividesSizes(t0, t1, sep) && LinksSizes(t1, t2, sep)
    ensures KeepsSizes(t0, t2)
  {
    hide AllSized, KeySize;
  }

  lemma GrowRootSizes(t0: Tree, t1: Tree, left: PageId, sep: Key, right: PageId, top: PageId)
    requires SamePages(t0, t1) && left in t1.info && right in t1.info && SmallKey(sep)
    ensures LinksSizes(t0, GrowRoot(t1, left, sep, right, top), sep)
  {
    hide AllSized, KeySize;
    SameSizes(t0, t1);
    forall z: Sizes | AllSized(t0, z) && KeySize(sep) == z.key ensures AllSized(GrowRoot(t1, left, sep, right, top), z) {
      CountFits(1, CellSize(z), CAPACITY);
      GrowRootSized(t1, left, sep, right, top, z);
    }
  }

  lemma LinkSizes(t: Tree, left: PageId, sep: Key, right: PageId, p: PageId, i: nat)
    requires left in t.info && right in t.info && right in t.pages && p in t.info
    requires p in t.pages && t.pages[p].Internal? && i <= |t.pages[p].cells|
    ensures LinksWithRoom(t, LinkRight(t, left, sep, right, p, i), sep, p)
  {
    hide AllSized, KeySize, MaxCells;
    forall z: Sizes | AllSized(t, z) && KeySize(sep) == z.key && |t.pages[p].cells| + 1 <= MaxCells(z)
      ensures AllSized(LinkRight(t, left, sep, right, p, i), z)
    {
      LinkRightSized(t, left, sep, right, p, i, z);
    }
  }

  /** The parent had room, or it was split and the half above `left` has room now. */
  lemma LinkAfterSplit(t0: Tree, left: PageId, t1: Tree, t2: Tree, t3: Tree, sep: Key, split: bool)
    requires left in t0.info && left in t0.pages && left in t1.pages
    requires var p := ParentOf(t0.pages[left]);
      && p in t0.info && p in t0.pages && t0.pages[p].Internal? && t0.info[left].level + 1 == t0.info[p].level
      && if split then KeepsSizes(t0, t1) && HalvedAbove(t0, t1, p) && CellCount(t0, p) >= 2
         else t1 == t0 && InternalEntrySize(sep) <= CAPACITY - Used(t0.pages[p])
    requires LinksWithRoom(t1, t2, sep, ParentOf(t1.pages[left])) && KeepsSizes(t2, t3)
    ensures LinksSizes(t0, t3, sep)
  {
    hide KeySize, MaxCells, Used;
    var p, q := ParentOf(t0.pages[left]), ParentOf(t1.pages[left]);
    assert split ==> 2 * CellCount(t1, q) <= CellCount(t0, p);
    hide HalvedAbove;
    forall z: Sizes | AllSized(t0, z) && KeySize(sep) == z.key ensures AllSized(t3, z) {
      assert SizedNode(t0.pages[p], z);
      SizedInternal(t0.pages[p], z);
      hide AllSized;
      assert CellCount(t1, q) + 1 <= MaxCells(z);
    }
  }

  lemma AddSizes(t: Tree, p: PageId, i: nat, e: LeafEntry)
    requires p in t.info && p in t.pages && t.pages[p].Leaf? && i <= |t.pages[p].entries|
    ensures AddsWithRoom(t, AddEntry(t, p, i, e), e, |t.pages[p].entries|)
  {
    hide AllSized, SizedEntry, MaxEntries;
    forall z: Sizes | AllSized(t, z) && SizedEntry(e, z) && |t.pages[p].entries| + 1 <= MaxEntries(z)
      ensures AllSized(AddEntry(t, p, i, e), z)
    {
      AddEntrySized(t, p, i, e, z);
    }
  }

  /** The leaf had room, or it was split and the half that takes the entry has room now. */
  lemma AddAfterSplit(t0: Tree, leaf: PageId, t1: Tree, t2: Tree, e: LeafEntry, entries: nat, split: bool)
    requires leaf in t0.info && leaf in t0.pages && t0.pages[leaf].Leaf?
    requires if split then KeepsSizes(t0, t1) && 2 * entries <= |t0.pages[leaf].entries| + 1 && |t0.pages[leaf].entries| >= 2
             else t1 == t0 && entries == |t0.pages[leaf].entries| && LeafEntrySize(e) <= CAPACITY - Used(t0.pages[leaf])
    requires AddsWithRoom(t1, t2, e, entries)
    ensures AddsSizes(t0, t2, e)
  {
    hide KeySize, MaxEntries, Used;
    forall z: Sizes | AllSized(t0, z) && SizedEntry(e, z) ensures AllSized(t2, z) {
      assert SizedNode(t0.pages[leaf], z);
      SizedLeaf(t0.pages[leaf], z);
      hide AllSized;
      assert entries + 1 <= MaxEntries(z);
    }
  }

  /** The leaves that now hold the keys of a split leaf have about half of its entries each. */
  ghost predicate HalvedBelow(t: Tree, t': Tree, leaf: PageId) {
    && leaf in t.info && leaf in t.pages && t.pages[leaf].Leaf?
    && forall k, q :: In(k, t.info[leaf].lo, t.info[leaf].hi) && q in t'.info && t'.info[q].level == 0 && In(k, t'.info[q].lo, t'.info[q].hi) ==>
         q in t'.pages && t'.pages[q].Leaf? && 2 * |t'.pages[q].entries| <= |t.pages[leaf].entries| + 1
  }

  lemma HalvedFor(t: Tree, t': Tree, leaf: PageId, k: Key, q: PageId)
    requires HalvedBelow(t, t', leaf) && In(k, t.info[leaf].lo, t.info[leaf].hi)
    requires q in t'.info && t'.info[q].level == 0 && In(k, t'.info[q].lo, t'.info[q].hi)
    ensures q in t'.pages && t'.pages[q].Leaf? && 2 * |t'.pages[q].entries| <= |t.pages[leaf].entries| + 1
  {
  }

  lemma SplitHalves(t0: Tree, t1: Tree, t2: Tree, leaf: PageId, right: PageId, sep: Key)
    requires leaf in t0.info && leaf in t0.pages && t0.pages[leaf].Leaf?
    requires leaf in t1.info && right in t1.info && t1.info[leaf].level == t1.info[right].level == 0
    requires t1.info[leaf].lo == t0.info[leaf].lo && t1.info[leaf].hi == At(sep) == t1.info[right].lo && t1.info[right].hi == t0.info[leaf].hi
    requires leaf in t1.pages && t1.pages[leaf].Leaf? && 2 * |t1.pages[leaf].entries| <= |t0.pages[leaf].entries| + 1
    requires right in t1.pages && t1.pages[right].Leaf? && 2 * |t1.pages[right].entries| <= |t0.pages[leaf].entries| + 1
    requires SameUpTo(t1.(info := Listed(t1.info, leaf, right)), t2, 0) && Valid(t2)
    ensures HalvedBelow(t0, t2, leaf)
  {
    hide Lt, ValidBut;
    forall p | p == leaf || p == right
      ensures p in t2.info && t2.info[p].level == 0 && t2.info[p].lo == t1.info[p].lo && t2.info[p].hi == t1.info[p].hi
      ensures p in t2.pages && t2.pages[p].Leaf? && 2 * |t2.pages[p].entries| <= |t0.pages[leaf].entries| + 1
    {
      assert p in Listed(t1.info, leaf, right);
    }
    hide SameUpTo, Listed;
    forall k, q | In(k, t0.info[leaf].lo, t0.info[leaf].hi) && q in t2.info && t2.info[q].level == 0 && In(k, t2.info[q].lo, t2.info[q].hi)
      ensures q == leaf || q == right
    {
      OnePage(t2, q, if Lt(k, sep) then leaf else right, k, INVALID_PAGE);
    }
  }

  // ------------------------------------------------------------ removal

  predicate Underfull(t: Tree, p: PageId) { p in t.pages && IsUnderfull(t.pages[p]) }

  lemma DropSizes(t: Tree, p: PageId, i: nat)
    requires p in t.info && p in t.pages && t.pages[p].Leaf? && i < |t.pages[p].entries|
    ensures KeepsSizes(t, DropEntry(t, p, i))
  {
    hide AllSized;
    forall z: Sizes | AllSized(t, z) ensures AllSized(DropEntry(t, p, i), z) {
      DropEntrySized(t, p, i, z);
    }
  }

  lemma CollapseSizes(t: Tree, t': Tree)
    requires t.root in t.pages && t.pages[t.root].Internal? && t.pages[t.root].rightmost in t.pages
    requires t.pages[t.root].rightmost in t.info && SamePages(CollapseRoot(t), t')
    ensures KeepsSizes(t, t')
  {
    hide AllSized;
    SameSizes(CollapseRoot(t), t');
    forall z: Sizes | AllSized(t, z) ensures AllSized(CollapseRoot(t), z) {
      CollapseRootSized(t, z);
    }
  }

  /** An underfull leaf may take one entry from its neighbour below p. */
  lemma BorrowLeafSizes(t: Tree, p: PageId, j: nat, x: nat, page: PageId)
    requires Valid(t) && p in t.info && t.info[p].level == 1 && j < |t.pages[p].cells|
    requires Child(t.pages[p], j) in t.info && Child(t.pages[p], j + 1) in t.info
    requires t.pages[Child(t.pages[p], j)].Leaf? && t.pages[Child(t.pages[p], j + 1)].Leaf?
    requires var a, b := Child(t.pages[p], j), Child(t.pages[p], j + 1);
      (page == a && x == |t.pages[a].entries| + 1 && |t.pages[b].entries| >= 2) || (page == b && x + 1 == |t.pages[a].entries| && x > 0)
    ensures Underfull(t, page) ==> KeepsSizes(t, ShiftLeaves(t, p, j, x))
  {
    hide KeySize, LeafUsed, Lt, ValuesSize, MaxEntries, HalfEntries;
    var a, b := Child(t.pages[p], j), Child(t.pages[p], j + 1);
    forall z: Sizes | Underfull(t, page) && AllSized(t, z) ensures AllSized(ShiftLeaves(t, p, j, x), z) {
      var donor := if page == a then b else a;
      assert SizedNode(t.pages[a], z) && SizedNode(t.pages[b], z);
      SizedLeaf(t.pages[page], z);
      SmallOnes(t, donor, z);
      RoomForOne(EntrySize(z));
      hide AllSized, SizedNode;
      ShiftLeavesSized(t, p, j, x, z);
    }
  }

  lemma SmallOnes(t: Tree, donor: PageId, z: Sizes)
    requires Valid(t) && donor in t.info && t.pages[donor].Leaf? && t.pages[donor].entries != [] && SizedNode(t.pages[donor], z)
    ensures EntrySize(z) < CAPACITY / 2
  {
    hide Lt, ValuesSize, KeySize;
    assert NodeOk(t, donor, INVALID_PAGE);
    assert SizedEntry(t.pages[donor].entries[0], z) && SmallEntry(t.pages[donor].entries[0]);
  }

  lemma RoomForOne(size: nat)
    requires 0 < size <= CAPACITY / 2
    ensures (CAPACITY / 2 - 1) / size + 1 <= CAPACITY / size
  {
    HalvesFit(size);
  }

  /** An underfull node may take one child from its neighbour below p. */
  lemma BorrowInternalSizes(t: Tree, p: PageId, j: nat, x: nat, page: PageId, thin: PageId)
    requires ValidBut(t, thin) && p in t.info && t.info[p].level > 1 && j < |t.pages[p].cells|
    requires Child(t.pages[p], j) in t.info && Child(t.pages[p], j + 1) in t.info
    requires t.pages[Child(t.pages[p], j)].Internal? && t.pages[Child(t.pages[p], j + 1)].Internal?
    requires var a, b := Child(t.pages[p], j), Child(t.pages[p], j + 1);
      (page == a && x == |t.pages[a].cells| + 1 && |t.pages[b].cells| >= 2) || (page == b && x + 1 == |t.pages[a].cells|)
    ensures Underfull(t, page) ==> KeepsSizes(t, ShiftInternals(t, p, j, x))
  {
    hide KeySize, InternalUsed, Lt, ValuesSize, MaxCells, HalfCells;
    var a, b := Child(t.pages[p], j), Child(t.pages[p], j + 1);
    forall z: Sizes | Underfull(t, page) && AllSized(t, z) ensures AllSized(ShiftInternals(t, p, j, x), z) {
      assert SizedNode(t.pages[a], z) && SizedNode(t.pages[b], z) && SizedNode(t.pages[p], z);
      SizedInternal(t.pages[page], z);
      SmallSeparators(t, p, thin, z);
      RoomForOne(CellSize(z));
      hide AllSized, SizedNode;
      ShiftInternalsSized(t, p, j, x, z);
    }
  }

  lemma SmallSeparators(t: Tree, p: PageId, thin: PageId, z: Sizes)
    requires ValidBut(t, thin) && p in t.info && t.info[p].level > 0 && t.pages[p].cells != [] && SizedNode(t.pages[p], z)
    ensures CellSize(z) <= CAPACITY / 4
  {
    hide Lt, ValuesSize, KeySize;
    CellsFacts(t, p, thin);
    assert KeySize(t.pages[p].cells[0].key) == z.key && SmallKey(t.pages[p].cells[0].key);
  }

  lemma MergeLeafSizes(t: Tree, p: PageId, j: nat)
    requires p in t.info && p in t.pages && t.pages[p].Internal? && j < |t.pages[p].cells|
    requires Child(t.pages[p], j) in t.info && Child(t.pages[p], j + 1) in t.info
    requires Child(t.pages[p], j) in t.pages && t.pages[Child(t.pages[p], j)].Leaf?
    requires Child(t.pages[p], j + 1) in t.pages && t.pages[Child(t.pages[p], j + 1)].Leaf?
    requires IsUnderfull(t.pages[Child(t.pages[p], j)]) && IsUnderfull(t.pages[Child(t.pages[p], j + 1)])
    ensures KeepsSizes(t, MergeLeaves(t, p, j))
  {
    hide KeySize, LeafUsed;
    var a, b := Child(t.pages[p], j), Child(t.pages[p], j + 1);
    forall z: Sizes | AllSized(t, z) ensures AllSized(MergeLeaves(t, p, j), z) {
      assert SizedNode(t.pages[a], z) && SizedNode(t.pages[b], z);
      SizedLeaf(t.pages[a], z);
      SizedLeaf(t.pages[b], z);
      HalvesFit(EntrySize(z));
      hide AllSized, SizedNode;
      MergeLeavesSized(t, p, j, z);
    }
  }

  lemma MergeInternalSizes(t: Tree, p: PageId, j: nat)
    requires p in t.info && p in t.pages && t.pages[p].Internal? && j < |t.pages[p].cells|
    requires Child(t.pages[p], j) in t.info && Child(t.pages[p], j + 1) in t.info
    requires Child(t.pages[p], j) in t.pages && t.pages[Child(t.pages[p], j)].Internal?
    requires Child(t.pages[p], j + 1) in t.pages && t.pages[Child(t.pages[p], j + 1)].Internal?
    requires IsUnderfull(t.pages[Child(t.pages[p], j)]) && IsUnderfull(t.pages[Child(t.pages[p], j + 1)])
    ensures MergingKeepsSizes(t, MergeInternals(t, p, j))
  {
    hide KeySize, InternalUsed, MaxCells, HalfCells;
    var a, b := Child(t.pages[p], j), Child(t.pages[p], j + 1);
    forall z: Sizes | AllSized(t, z) && MergesFit(z) ensures AllSized(MergeInternals(t, p, j), z) {
      assert SizedNode(t.pages[a], z) && SizedNode(t.pages[b], z);
      SizedInternal(t.pages[a], z);
      SizedInternal(t.pages[b], z);
      hide AllSized, SizedNode;
      MergeInternalsSized(t, p, j, z);
    }
  }

  lemma KeepsThenKeeps(t0: Tree, t1: Tree, t2: Tree)
    requires KeepsSizes(t0, t1)
    ensures KeepsSizes(t1, t2) ==> KeepsSizes(t0, t2)
    ensures MergingKeepsSizes(t1, t2) ==> MergingKeepsSizes(t0, t2)
    ensures MergingKeepsSizes(t0, t1)
  {
    hide AllSized, MergesFit;
  }

  lemma MergingThenMerging(t0: Tree, t1: Tree, t2: Tree)
    requires MergingKeepsSizes(t0, t1) && MergingKeepsSizes(t1, t2)
    ensures MergingKeepsSizes(t0, t2)
  {
    hide AllSized, MergesFit;
  }

  /** The pages of the tree are the same ones. */
  lemma AddsThenSame(t0: Tree, t1: Tree, t2: Tree, e: LeafEntry)
    requires AddsSizes(t0, t1, e) && SamePages(t1, t2)
    ensures AddsSizes(t0, t2, e)
  {
    hide SizedNode;
    SameSizes(t1, t2);
  }

  lemma KeepsSelf(t: Tree)
    ensures KeepsSizes(t, t) && MergingKeepsSizes(t, t)
  {
  }

  lemma AddsSelf(t: Tree, e: LeafEntry)
    ensures AddsSizes(t, t, e)
  {
  }

  lemma MergesThenSame(t0: Tree, t1: Tree, t2: Tree)
    requires SamePages(t1, t2)
    ensures MergingKeepsSizes(t0, t1) ==> MergingKeepsSizes(t0, t2)
  {
    hide SizedNode, MergesFit;
    SameSizes(t1, t2);
  }

  lemma EmptyIsSized(t: Tree, page: PageId)
    requires t.info.Keys == {page} && page in t.pages && t.pages[page] == Leaf(INVALID_PAGE, INVALID_PAGE, [])
    ensures forall z: Sizes :: AllSized(t, z)
  {
  }
}
