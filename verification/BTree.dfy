/** The B+ tree on the page store (src/btree/btree.cpp).

    The methods rewrite pages in the store of module Paging, as the source does through node setters.  What
    a step does to the tree as a whole is a function of modules InsertSteps, RemoveSteps and ShiftSteps; each
    method ties the pages it wrote to such a step and updates the ghost information of the pages with it.

    A split in progress, whose right half no parent lists yet, and one node without separators, which a merge
    may leave behind, are the only departures from the invariant, and only inside an operation.
 */
module BPlusTree {
  import opened Keys
  import opened Pages
  import opened TreeShape
  import opened Paging
  import opened InsertSteps
  import opened RemoveSteps
  import opened ShiftSteps
  import opened Cascade
  import opened Space
  import opened PageSizes
  import opened Wrappers
  import opened Scans

  /** Which pages belong to the tree and to the free list, and what all pages hold. */
  datatype Ownership = Ownership(tree: set<PageId>, free: seq<PageId>, total: nat, pages: map<PageId, Page>)

  /** Tree pages and free pages together gain exactly the pages newly added to the file, and pages that
      are neither keep their contents. */
  ghost predicate Conserved(a: Ownership, b: Ownership) {
    && a.total <= b.total
    && (forall p :: p in b.tree || p in b.free <==> p in a.tree || p in a.free || a.total <= p < b.total)
    && (forall p :: p in a.pages && p < a.total && p !in a.tree && p !in a.free ==>
          p in b.pages && b.pages[p] == a.pages[p])
  }

  /** The same, but for the header, which a commit rewrites when the free list has changed. */
  ghost predicate ConservedApart(a: Ownership, b: Ownership) {
    && a.total <= b.total
    && (forall p :: p in b.tree || p in b.free <==> p in a.tree || p in a.free || a.total <= p < b.total)
    && (forall p :: p in a.pages && p < a.total && p !in a.tree && p !in a.free && p != HEADER_PAGE_ID ==>
          p in b.pages && b.pages[p] == a.pages[p])
  }

  /** Another tree in the same file is not disturbed: it is as valid as before, and its pages still belong
      neither to this tree nor to the free list. */
  lemma OtherTreeUndisturbed(a: Ownership, b: Ownership, other: Tree)
    requires ConservedApart(a, b) && TreeShape.Valid(other) && other.pages == a.pages
    requires forall p :: p in other.info ==> 0 < p < a.total && p !in a.tree && p !in a.free
    ensures TreeShape.Valid(other.(pages := b.pages))
    ensures forall p :: p in other.info ==> 0 < p < b.total && p !in b.tree && p !in b.free
  {
    hide NodeOk;
    var after := other.(pages := b.pages);
    assert forall p :: p in other.info ==> p in a.pages by { TreePagesExist(other, INVALID_PAGE); }
    ShapeFrame(other, after, INVALID_PAGE);
  }

  lemma TreePagesExist(t: Tree, thin: PageId)
    requires ValidBut(t, thin)
    ensures forall p :: p in t.info ==> p in t.pages
  {
    forall p | p in t.info ensures p in t.pages {
      assert NodeOk(t, p, thin);
    }
  }

  lemma CommitConserves(a: Ownership, b: Ownership, c: Ownership)
    requires Conserved(a, b) && c.tree == b.tree && c.free == b.free && c.total == b.total
    requires b.pages.Keys == c.pages.Keys && forall p :: p in b.pages && p != HEADER_PAGE_ID ==> c.pages[p] == b.pages[p]
    ensures ConservedApart(a, c)
  {
  }

  lemma ConservedTrans(a: Ownership, b: Ownership, c: Ownership)
    requires Conserved(a, b) && Conserved(b, c)
    ensures Conserved(a, c)
  {
  }

  /** The pages of a tree exist and are not free. */
  ghost predicate Owned(o: Ownership) {
    forall p :: p in o.tree ==> p in o.pages && 0 < p < o.total && p !in o.free
  }

  lemma OneOwned(page: PageId, o: Ownership)
    requires o.tree == {page} && page in o.pages && 0 < page < o.total && page !in o.free
    ensures Owned(o)
  {
  }

  /** The head of the free list, or else a page added to the file, comes to the tree. */
  lemma ConservedAllocation(a: Ownership, b: Ownership, page: PageId)
    requires Owned(a) && b.tree == a.tree + {page} && 0 < page < b.total && page in b.pages && page !in b.free
    requires a.free != [] ==> page == a.free[0] && b.free == a.free[1..] && b.total == a.total && b.pages == a.pages
    requires a.free == [] ==> page == a.total && page !in a.pages && b.free == [] && b.total == a.total + 1 && b.pages == a.pages[page := Blank]
    ensures Owned(b) && Conserved(a, b) && page !in a.tree && a.total <= b.total
    ensures forall p :: p in a.tree ==> p in b.pages && b.pages[p] == a.pages[p]
  {
    if a.free != [] {
      assert a.free == [page] + b.free;
    }
  }

  /** Pages of the tree may be rewritten. */
  lemma ConservedRewrite(a: Ownership, b: Ownership, c: Ownership)
    requires Owned(b) && b.pages.Keys <= c.pages.Keys
    requires Conserved(a, b) && c.tree == b.tree && c.free == b.free && c.total == b.total
    requires forall p :: p in b.pages && p !in b.tree ==> p in c.pages && c.pages[p] == b.pages[p]
    ensures Conserved(a, c) && Owned(c)
  {
  }

  /** A new page joined the tree, and only pages of the tree were rewritten. */
  lemma ConservedSplit(a: Ownership, b: Ownership, t: Tree, t': Tree, right: PageId)
    requires Owned(b) && Conserved(a, b) && b.tree == t.info.Keys + {right} && b.pages == t.pages && right in b.pages
    requires t'.info.Keys == t.info.Keys + {right} && forall p :: p in b.tree ==> p in t'.pages
    requires forall q :: q in t.pages && q !in t.info && q != right ==> q in t'.pages && t'.pages[q] == t.pages[q]
    ensures var c := Ownership(t'.info.Keys, b.free, b.total, t'.pages); Conserved(a, c) && Owned(c)
  {
  }

  /** A page to be split, its children and its new right half are pages of the tree, and none is free. */
  lemma KidsAreOwned(t: Tree, own: Ownership, page: PageId, right: PageId)
    requires Shaped(t, INVALID_PAGE) && page in t.info && t.info[page].level > 0 && right !in t.info
    requires Owned(own) && own.tree == t.info.Keys + {right} && own.pages == t.pages
    ensures page != right && forall c :: c == page || c == right ==> c in t.pages && c !in own.free && c != HEADER_PAGE_ID
    ensures forall c :: c in Kids(t.pages[page]) ==> c in t.pages && c !in own.free && c != HEADER_PAGE_ID && c != page && c != right
  {
    hide NodeOk;
    KidsInTree(t, page, INVALID_PAGE);
  }

  lemma ConservedSelf(a: Ownership)
    ensures Conserved(a, a)
  {
  }

  lemma GrownPages(t1: Tree, left: PageId, sep: Key, right: PageId, top: PageId, pages: map<PageId, Page>, t: Tree)
    requires left in t1.info && right in t1.info && left in t1.pages && right in t1.pages && top != left && top != right && left != right
    requires pages == t1.pages[top := Internal(INVALID_PAGE, right, [InternalEntry(sep, left)])]
                              [left := WithParent(t1.pages[left], top)][right := WithParent(t1.pages[right], top)]
    requires t == Tree(pages, top, GrowRoot(t1, left, sep, right, top).info, t1.m)
    ensures t == GrowRoot(t1, left, sep, right, top)
  {
  }

  /** Between the split of the parent, if there was one, and the linking: the pending split is as it was. */
  lemma AfterFirstSplit(t0: Tree, t1: Tree, left: PageId, sep: Key, right: PageId, l: nat, split: bool)
    requires Shaped(t0, INVALID_PAGE) && Pending(t0, left, sep, right) && t0.info[left].level == l
    requires Shaped(t1, INVALID_PAGE) && t0.root != left
    requires if split then SameUpTo(t0, t1, l) else t1 == t0
    ensures Pending(t1, left, sep, right) && t1.info[left].level == l && t1.info[right].level == l
    ensures t1.root != left
    ensures SameUpTo(t0.(info := Listed(t0.info, left, right)), t1.(info := Listed(t1.info, left, right)), l)
  {
    hide Lt, ValuesSize, BodyOk, BoundLt;
    if split {
      SameUpToListed(t0, t1, l, left, right);
    }
    var s := ListedSlot(t0, left);
    var up := ParentOf(t0.pages[left]);
    assert NodeOk(t1, up, INVALID_PAGE);
  }

  lemma SplitLeafPages(t1: Tree, leaf: PageId, right: PageId, mid: nat)
    requires leaf in t1.info && leaf in t1.pages && t1.pages[leaf].Leaf? && mid < |t1.pages[leaf].entries| && leaf != right
    ensures var n := t1.pages[leaf];
      InsertSteps.SplitLeaf(t1, leaf, right, mid).pages
      == t1.pages[right := Leaf(n.parent, n.next, n.entries[mid..])][leaf := Leaf(n.parent, right, n.entries[..mid])]
  {
  }

  lemma LeafFacts(t: Tree, leaf: PageId)
    requires TreeShape.Valid(t) && leaf in t.info && t.info[leaf].level == 0
    ensures EntriesOk(t.m, t.info[leaf].lo, t.info[leaf].hi, t.pages[leaf].entries)
  {
    hide Lt, ValuesSize;
    assert NodeOk(t, leaf, INVALID_PAGE);
  }

  lemma EntryInMap(t: Tree, leaf: PageId, i: nat)
    requires TreeShape.Valid(t) && leaf in t.info && t.info[leaf].level == 0 && i < |t.pages[leaf].entries|
    ensures t.pages[leaf].entries[i].key in t.m
  {
    LeafFacts(t, leaf);
  }

  /** Separators and children of a node are distinct. */
  lemma NodeDistinct(t: Tree, p: PageId, j: nat, thin: PageId)
    requires Shaped(t, thin) && p in t.info && t.info[p].level > 0 && j < |t.pages[p].cells|
    ensures forall i: nat :: i < |t.pages[p].cells| && i != j ==> t.pages[p].cells[i].key != t.pages[p].cells[j].key
    ensures forall s: nat :: s <= |t.pages[p].cells| && s != j + 1 ==> Child(t.pages[p], s) != Child(t.pages[p], j + 1)
  {
    hide Lt, ValuesSize, NodeOk;
    CellsFacts(t, p, thin);
    OrderLaws();
    forall s: nat | s <= |t.pages[p].cells| && s != j + 1 ensures Child(t.pages[p], s) != Child(t.pages[p], j + 1) {
      if Child(t.pages[p], s) == Child(t.pages[p], j + 1) {
        ChildrenDistinct(t, p, thin, s, j + 1);
      }
    }
  }

  /** A shift changes neither the set of pages, nor the root, nor the map. */
  lemma ShiftedShape(t: Tree, p: PageId, j: nat, x: nat)
    requires p in t.pages && t.pages[p].Internal? && j < |t.pages[p].cells|
    requires Child(t.pages[p], j) in t.info && Child(t.pages[p], j + 1) in t.info
    requires Child(t.pages[p], j) in t.pages && t.pages[Child(t.pages[p], j)].Internal?
    requires Child(t.pages[p], j + 1) in t.pages && t.pages[Child(t.pages[p], j + 1)].Internal?
    requires x <= |t.pages[Child(t.pages[p], j)].cells| + |t.pages[Child(t.pages[p], j + 1)].cells|
    ensures var t' := ShiftInternals(t, p, j, x);
      t'.root == t.root && t'.m == t.m && t'.info.Keys == t.info.Keys
  {
  }

  /** A node is thin only if it is internal and has no separator. */
  lemma Unthin(t: Tree, p: PageId)
    requires ValidBut(t, p) && (p in t.info && t.info[p].level > 0 ==> t.pages[p].cells != [])
    ensures TreeShape.Valid(t)
  {
    hide Lt, ValuesSize, EntriesOk, CellsOk, SlotOk;
    forall q | q in t.info ensures NodeOk(t, q, INVALID_PAGE) {
      assert NodeOk(t, q, p);
    }
  }

  lemma DonorHasTwo(t: Tree, donor: PageId, thin: PageId)
    requires ValidBut(t, thin) && donor in t.info && !IsUnderfull(t.pages[donor])
    ensures if t.info[donor].level == 0 then |t.pages[donor].entries| >= 2 else |t.pages[donor].cells| >= 2
  {
    hide Lt, ValuesSize, KeySize;
    assert NodeOk(t, donor, thin);
    if t.info[donor].level == 0 {
      DonorLeafHasTwo(t.pages[donor].entries);
    } else {
      DonorInternalHasTwo(t.pages[donor].cells);
    }
  }

  /** Above a merge, pages keep their parents. */
  ghost predicate SameParents(t: Tree, t': Tree, p: PageId) {
    && p in t.info && t'.root == t.root
    && (forall q :: q in t.info && t.info[q].level >= t.info[p].level ==>
          && q in t'.info && t'.info[q].level == t.info[q].level
          && q in t.pages && q in t'.pages && ParentOf(t'.pages[q]) == ParentOf(t.pages[q]))
  }

  lemma SameParentsThen(t: Tree, t1: Tree, t2: Tree, p: PageId)
    requires SameParents(t, t1, p) && SamePages(t1, t2) && t2.root == t1.root
    ensures SameParents(t, t2, p)
  {
  }

  lemma LeavesMerged(t: Tree, p: PageId, j: nat)
    requires TreeShape.Valid(t) && p in t.info && t.info[p].level == 1 && j < |t.pages[p].cells|
    ensures var into, from := Child(t.pages[p], j), Child(t.pages[p], j + 1);
      && into in t.info && from in t.info && t.pages[into].Leaf? && t.pages[from].Leaf?
      && var t' := MergeLeaves(t, p, j);
      && ValidBut(t', p) && SameParents(t, t', p) && t'.info == MergedInfo(t, p, j)
      && t'.root == t.root && t'.m == t.m && t'.info.Keys == t.info.Keys - {from} && t'.pages.Keys == t.pages.Keys
      && (forall q :: q in t.pages && q !in t.info ==> t'.pages[q] == t.pages[q])
  {
    hide Lt, ValuesSize, NodeOk;
    Neighbours(t, p, j, INVALID_PAGE);
    MergeLeavesKeeps(t, p, j);
    UnlinkedSlots(t.pages[p], j, Child(t.pages[p], j));
  }

  lemma InternalsMerged(t: Tree, p: PageId, j: nat, thin: PageId)
    requires ValidBut(t, thin) && p in t.info && t.info[p].level > 1 && j < |t.pages[p].cells|
    requires thin == INVALID_PAGE || thin == Child(t.pages[p], j) || thin == Child(t.pages[p], j + 1)
    ensures var into, from := Child(t.pages[p], j), Child(t.pages[p], j + 1);
      && into in t.info && from in t.info && t.pages[into].Internal? && t.pages[from].Internal?
      && var t' := MergeInternals(t, p, j);
      && ValidBut(t', p) && SameParents(t, t', p) && t'.info == MergedInfo(t, p, j)
      && t'.root == t.root && t'.m == t.m && t'.info.Keys == t.info.Keys - {from} && t'.pages.Keys == t.pages.Keys
      && (forall q :: q in t.pages && q !in t.info ==> t'.pages[q] == t.pages[q])
  {
    hide Lt, ValuesSize, NodeOk;
    Neighbours(t, p, j, thin);
    MergeInternalsKeeps(t, p, j, thin);
    UnlinkedSlots(t.pages[p], j, Child(t.pages[p], j));
    var t' := MergeInternals(t, p, j);
    forall q | q in t.pages
      ensures q !in t.info ==> t'.pages[q] == t.pages[q]
      ensures q in t.info && t.info[q].level >= t.info[p].level ==> ParentOf(t'.pages[q]) == ParentOf(t.pages[q])
    {
      MergedKids(t, p, j, thin, q);
    }
  }

  /** A page of the tree becomes the head of the free list. */
  lemma ConservedFree(a: Ownership, from: PageId, b: Ownership)
    requires Owned(a) && from in a.tree && b.tree == a.tree - {from} && b.free == [from] + a.free && b.total == a.total
    requires b.pages.Keys == a.pages.Keys
    requires forall p :: p in a.pages && p !in a.tree ==> b.pages[p] == a.pages[p]
    ensures Conserved(a, b) && Owned(b)
  {
  }

  lemma PathFrame(t: Tree, t': Tree, p: PageId, path: seq<PageId>, thin: PageId)
    requires ValidBut(t, thin) && p in t.info && SameParents(t, t', p) && PathOk(t, p, path)
    ensures PathOk(t', p, path)
    decreases |path|
  {
    hide NodeOk;
    if p != t.root {
      var s := SlotOf(t, p, thin);
      PathFrame(t, t', path[|path| - 1], path[..|path| - 1], thin);
    }
  }

  /** The tree may be handed on as thin in one node. */
  lemma Thin(t: Tree, p: PageId)
    requires TreeShape.Valid(t)
    ensures ValidBut(t, p)
  {
    hide Lt, ValuesSize, EntriesOk, CellsOk, SlotOk;
    forall q | q in t.info ensures NodeOk(t, q, p) {
      assert NodeOk(t, q, INVALID_PAGE);
    }
  }

  lemma OneEntryPerKey(entries: seq<LeafEntry>, i: nat)
    requires EntriesSorted(entries) && i < |entries|
    ensures forall j :: 0 <= j < |entries| ==> (entries[j].key == entries[i].key <==> j == i)
  {
    hide Lt;
    OrderLaws();
  }

  /** The chain from a leaf leads to the leaf of the keys just above. */
  lemma ChainFacts(t: Tree, p: PageId)
    requires TreeShape.Valid(t) && p in t.info && t.info[p].level == 0
    ensures BoundLt(t.info[p].lo, t.info[p].hi) && !t.info[p].hi.NegInf?
    ensures var next := t.pages[p].next;
      if t.info[p].hi.PosInf? then next == INVALID_PAGE
      else next != INVALID_PAGE && next in t.info && t.info[next].level == 0 && t.info[next].lo == t.info[p].hi
  {
    hide Lt, ValuesSize, EntriesOk;
    assert NodeOk(t, p, INVALID_PAGE);
  }

  /** The leaves already seen end where the next one starts, or before. */
  lemma BoundsAhead(info: map<PageId, Info>, seen: set<PageId>, bound: Bound, hi: Bound)
    requires forall q :: q in seen ==> q in info && !BoundLt(bound, info[q].hi)
    requires BoundLt(bound, hi)
    ensures forall q :: q in seen ==> !BoundLt(hi, info[q].hi)
    ensures !BoundLt(hi, hi)
  {
    hide Lt;
    BoundLtTrans(hi, hi, hi);
    forall q | q in seen ensures !BoundLt(hi, info[q].hi) {
      BoundLtTrans(bound, hi, info[q].hi);
    }
  }

  lemma StartsBelow(m: map<Key, Bytes>, c: Criterion, start: Key, lo: Bound)
    requires StartKey(c) == Some(start) && (forall k :: k in m ==> LongEnough(c, k))
    requires lo.NegInf? || (lo.At? && !Lt(start, lo.key))
    ensures ListsBelow([], m, c, lo)
  {
    hide Lt, Judge, Selects;
    OrderLaws();
    forall k | k in m && KeyBelow(k, lo) ensures !Selects(c, k) {
      JudgeMeans(c, k);
      BelowStartNotTaken(c, k);
    }
  }

  lemma SingleLeaf(t: Tree, page: PageId)
    requires t.info == map[page := Info(0, NegInf, PosInf, PosInf, true)] && t.m == map[] && t.root == page && 0 < page
    requires page in t.pages && t.pages[page] == Leaf(INVALID_PAGE, INVALID_PAGE, [])
    ensures TreeShape.Valid(t)
  {
    assert NodeOk(t, page, INVALID_PAGE);
  }

  /** Leaf `donor`, the left or the right neighbour of leaf `page`, has given it its nearest entry. */
  ghost predicate EntryMoved(before: map<PageId, Page>, after: map<PageId, Page>, donor: PageId, page: PageId, fromLeft: bool) {
    && donor in before && page in before && donor in after && page in after
    && before[donor].Leaf? && before[page].Leaf? && before[donor].entries != []
    && var d, c := before[donor], before[page];
    var k := |d.entries| - 1;
    if fromLeft then
      after[donor] == d.(entries := d.entries[..k]) && after[page] == c.(entries := [d.entries[k]] + c.entries)
    else
      after[donor] == d.(entries := d.entries[1..]) && after[page] == c.(entries := c.entries + [d.entries[0]])
  }

  lemma EntryHasMoved(before: map<PageId, Page>, after: map<PageId, Page>, donor: PageId, page: PageId, fromLeft: bool)
    requires donor in before && page in before && donor in after && page in after
    requires before[donor].Leaf? && before[page].Leaf? && before[donor].entries != []
    requires var d, c, k := before[donor], before[page], |before[donor].entries| - 1;
      && after[donor] == d.(entries := if fromLeft then d.entries[..k] else d.entries[1..])
      && after[page] == c.(entries := if fromLeft then [d.entries[k]] + c.entries else c.entries + [d.entries[0]])
    ensures EntryMoved(before, after, donor, page, fromLeft)
  {
  }

  /** Node `donor` has given its nearest child to its neighbour `page`; the separator `sep` between them came
      down with it. */
  ghost predicate ChildMoved(before: map<PageId, Page>, after: map<PageId, Page>, donor: PageId, page: PageId, sep: Key, fromLeft: bool) {
    && donor in before && page in before && donor in after && page in after
    && before[donor].Internal? && before[page].Internal? && before[donor].cells != []
    && var d, c := before[donor], before[page];
    var k := |d.cells| - 1;
    if fromLeft then
      && after[donor] == d.(rightmost := d.cells[k].child, cells := d.cells[..k])
      && after[page] == c.(cells := [InternalEntry(sep, d.rightmost)] + c.cells)
    else
      && after[donor] == d.(cells := d.cells[1..])
      && after[page] == c.(rightmost := d.cells[0].child, cells := c.cells + [InternalEntry(sep, c.rightmost)])
  }

  /** The page and the donor are neighbours below the parent, and the donor is not underfull. */
  ghost predicate CanDonate(pages: map<PageId, Page>, parent: PageId, page: PageId, donor: PageId, fromLeft: bool) {
    && donor in pages && !IsUnderfull(pages[donor]) && parent in pages && pages[parent].Internal?
    && AreNeighbours(pages[parent], if fromLeft then donor else page, if fromLeft then page else donor)
  }

  ghost predicate AreNeighbours(n: Page, left: PageId, right: PageId)
    requires n.Internal?
  {
    exists i: nat :: i < |n.cells| && Child(n, i) == left && Child(n, i + 1) == right
  }

  ghost predicate Borrowed(before: map<PageId, Page>, after: map<PageId, Page>, parent: PageId, page: PageId, donor: PageId, sep: Key, fromLeft: bool) {
    && CanDonate(before, parent, page, donor, fromLeft)
    && (EntryMoved(before, after, donor, page, fromLeft) || ChildMoved(before, after, donor, page, sep, fromLeft))
  }

  /** Where no neighbour can donate, both of the nodes to be merged are underfull if the page is. */
  lemma NeitherDonates(t: Tree, parent: PageId, page: PageId, kept: PageId, gone: PageId)
    requires forall donor, fromLeft :: !CanDonate(t.pages, parent, page, donor, fromLeft)
    requires parent in t.pages && t.pages[parent].Internal? && AreNeighbours(t.pages[parent], kept, gone)
    requires (kept == page || gone == page) && kept in t.pages && gone in t.pages
    ensures Underfull(t, page) ==> Underfull(t, kept) && Underfull(t, gone)
  {
    hide AreNeighbours;
    var donor := if kept == page then gone else kept;
    assert !CanDonate(t.pages, parent, page, donor, gone == page);
  }

  /** Node `into` has taken over everything in its right neighbour `from`, with the separator `sep` of two
      internal nodes between the parts. */
  ghost predicate Joined(before: map<PageId, Page>, after: map<PageId, Page>, into: PageId, from: PageId, sep: Key) {
    && into in before && from in before && into in after
    && var a, b := before[into], before[from];
    if a.Leaf? then
      b.Leaf? && after[into] == Leaf(a.parent, b.next, a.entries + b.entries)
    else
      a.Internal? && b.Internal? && after[into] == Internal(a.parent, b.rightmost, a.cells + [InternalEntry(sep, a.rightmost)] + b.cells)
  }

  lemma JoinedStays(before: map<PageId, Page>, between: map<PageId, Page>, after: map<PageId, Page>, into: PageId, from: PageId, sep: Key)
    requires Joined(before, between, into, from, sep) && into in after && after[into] == between[into]
    ensures Joined(before, after, into, from, sep)
  {
  }

  lemma JoinedPages(before: map<PageId, Page>, after: map<PageId, Page>, into: PageId, from: PageId, sep: Key)
    requires Joined(before, after, into, from, sep)
    ensures into in before && from in before
  {
  }

  /** The upper half of the leaf's entries, by number, has moved to the new leaf to its right. */
  ghost predicate HalvedLeaf(before: map<PageId, Page>, after: map<PageId, Page>, leaf: PageId, right: PageId) {
    && leaf in before && before[leaf].Leaf? && leaf in after && right in after
    && var n := before[leaf];
    var mid := |n.entries| / 2;
    && after[leaf].Leaf? && after[leaf].entries == n.entries[..mid] && after[leaf].next == right
    && after[right].Leaf? && after[right].entries == n.entries[mid..] && after[right].next == n.next
  }

  /** The middle separator has left the node, what is above it has moved to the new node to its right. */
  ghost predicate HalvedInternal(before: map<PageId, Page>, after: map<PageId, Page>, page: PageId, promoted: Key, right: PageId) {
    && page in before && before[page].Internal? && before[page].cells != [] && page in after && right in after
    && var n := before[page];
    var mid := |n.cells| / 2;
    && promoted == n.cells[mid].key
    && after[page] == Internal(n.parent, n.cells[mid].child, n.cells[..mid])
    && after[right].Internal? && after[right].rightmost == n.rightmost && after[right].cells == n.cells[mid + 1..]
  }

  lemma HalvedBefore(before: map<PageId, Page>, between: map<PageId, Page>, after: map<PageId, Page>, page: PageId, promoted: Key, right: PageId)
    requires HalvedInternal(between, after, page, promoted, right) && page in before && before[page] == between[page]
    ensures HalvedInternal(before, after, page, promoted, right)
  {
  }

  /** A page is child number idx only. */
  lemma ChildOnce(t: Tree, parent: PageId, page: PageId, idx: nat)
    requires Shaped(t, page) && parent in t.info && t.info[parent].level > 0 && idx <= |t.pages[parent].cells|
    requires Child(t.pages[parent], idx) == page
    ensures forall s: nat :: s <= |t.pages[parent].cells| && Child(t.pages[parent], s) == page ==> s == idx
  {
    hide Lt, ValuesSize, NodeOk;
    forall s: nat | s <= |t.pages[parent].cells| && Child(t.pages[parent], s) == page ensures s == idx {
      ChildrenDistinct(t, parent, page, s, idx);
    }
  }

  datatype Outcome = Done | DuplicateKey | KeyNotFound

  class BTree {
    const store: Pager
    var root: PageId
    ghost var info: map<PageId, Info>
    ghost var m: map<Key, Bytes>

    ghost function T(): Tree
      reads this, store
    {
      Tree(store.pages, root, info, m)
    }

    ghost function Owns(): Ownership
      reads this, store
    {
      Ownership(info.Keys, store.free, store.total, store.pages)
    }

    /** The page store is in order, every change is logged, and tree and free list are disjoint. */
    ghost predicate Ready()
      reads this, store
    {
      store.Valid() && store.unlogged == {} && Owned(Owns())
    }

    ghost predicate Valid()
      reads this, store
    {
      Ready() && TreeShape.Valid(T())
    }

    /** A tree without keys: one empty leaf, in a transaction of its own (create_empty_root). */
    constructor (store: Pager)
      requires store.Valid()
      modifies store
      ensures Valid() && m == map[] && this.store == store
      ensures ConservedApart(Ownership({}, old(store.free), old(store.total), old(store.pages)), Owns())
    {
      this.store := store;
      root, info, m := INVALID_PAGE, map[], map[];
      new;
      hide Pager.Valid, NodeOk, ConservedApart, Replays, TreeShape.Valid, Owned;
      ghost var images;
      var page;
      page, images := CreateEmptyRoot(store);
      ghost var t := Tree(store.pages, page, map[page := Info(0, NegInf, PosInf, PosInf, true)], map[]);
      SingleLeaf(t, page);
      EmptyIsSized(t, page);
      root, info := page, t.info;
      OneOwned(page, Owns());
      assert T() == t;
    }

    static method CreateEmptyRoot(store: Pager) returns (page: PageId, ghost images: map<PageId, Page>)
      requires store.Valid()
      modifies store
      ensures store.Valid() && store.unlogged == {} && 0 < page < store.total && page !in store.free
      ensures page in store.pages && store.pages[page] == Leaf(INVALID_PAGE, INVALID_PAGE, [])
      ensures ConservedApart(Ownership({}, old(store.free), old(store.total), old(store.pages)),
                             Ownership({page}, store.free, store.total, store.pages))
      ensures images == store.committed && page in images
      ensures Replays(old(store.pages), old(store.firstFree), images, store.pages, store.firstFree)
      ensures store.active == map[]
    {
      hide Pager.Valid, Conserved, Replays;
      ghost var own0 := Ownership({}, store.free, store.total, store.pages);
      store.Begin();
      page := store.Allocate();
      ConservedAllocation(own0, Ownership({page}, store.free, store.total, store.pages), page);
      ghost var own1 := Ownership({page}, store.free, store.total, store.pages);
      store.Put(page, Leaf(INVALID_PAGE, INVALID_PAGE, []));
      store.Log(page);
      images := store.active;
      ghost var own2 := Ownership({page}, store.free, store.total, store.pages);
      ConservedRewrite(own0, own1, own2);
      store.Commit();
      CommitConserves(own0, own2, Ownership({page}, store.free, store.total, store.pages));
    }

    // ------------------------------------------------------------ pages

    /** BTree::allocate_page: a page that does not belong to the tree yet. */
    method AllocatePage(ghost thin: PageId) returns (page: PageId)
      requires Ready() && Shaped(T(), thin)
      modifies store`pages, store`total, store`firstFree, store`active, store`free, store`unlogged
      ensures store.Valid() && store.unlogged == {page}
      ensures old(store.total) <= store.total
      ensures 0 < page < store.total && page !in info && page in store.pages && page !in store.free
      ensures Shaped(T(), thin) && Owned(Owns().(tree := info.Keys + {page}))
      ensures forall p :: p in info ==> store.pages[p] == old(store.pages)[p]
      ensures Slack(T(), store.total) == old(Slack(T(), store.total))
      ensures Conserved(old(Owns()), Owns().(tree := info.Keys + {page}))
      ensures SamePages(old(T()), T())
    {
      hide NodeOk, Slack, Pager.Valid, Conserved;
      ghost var t0, total0, own0 := T(), store.total, Owns();
      page := store.Allocate();
      ConservedAllocation(own0, Owns().(tree := info.Keys + {page}), page);
      ShapeFrame(t0, T(), thin);
      SlackExtend(t0, T(), total0, store.total);
    }

    /** The parent field of one page is set, and the page logged. */
    method AdoptChild(child: PageId, parent: PageId)
      requires store.Valid() && child in store.pages && child !in store.free && child != HEADER_PAGE_ID
      modifies store`pages, store`active, store`unlogged
      ensures store.Valid() && store.unlogged == old(store.unlogged) - {child}
      ensures store.pages == old(store.pages)[child := WithParent(old(store.pages)[child], parent)]
    {
      hide Pager.Valid;
      store.Put(child, WithParent(store.pages[child], parent));
      store.Log(child);
    }

    method AdoptChildren(kids: seq<PageId>, parent: PageId)
      requires store.Valid() && forall p :: p in kids ==> p in store.pages && p !in store.free && p != HEADER_PAGE_ID && p !in store.unlogged
      modifies store`pages, store`active, store`unlogged
      ensures store.Valid() && store.unlogged == old(store.unlogged)
      ensures store.pages == Reparent(old(store.pages), kids, parent)
    {
      hide Pager.Valid;
      ghost var pages0 := store.pages;
      assert Reparent(pages0, kids[..0], parent) == pages0;
      for i := 0 to |kids|
        invariant store.Valid() && store.unlogged == old(store.unlogged)
        invariant store.pages == Reparent(pages0, kids[..i], parent)
      {
        var kid := kids[i];
        ReparentStep(pages0, kids, i, parent);
        AdoptChild(kid, parent);
      }
      assert kids[..|kids|] == kids;
    }

    /** Two nodes are rewritten and then logged. */
    method WriteTwo(page: PageId, node: Page, other: PageId, otherNode: Page)
      requires store.Valid() && page in store.pages && page !in store.free && page != HEADER_PAGE_ID
      requires other in store.pages && other !in store.free && other != HEADER_PAGE_ID
      modifies store`pages, store`active, store`unlogged
      ensures store.Valid() && store.unlogged == old(store.unlogged) - {page, other}
      ensures store.pages == old(store.pages)[page := node][other := otherNode]
    {
      hide Pager.Valid;
      store.Put(page, node);
      store.Put(other, otherNode);
      store.Log(other);
      store.Log(page);
    }

    // ------------------------------------------------------------ splits

    /** The two halves are written and the children of the right one adopted. */
    method WriteHalves(page: PageId, right: PageId)
      requires store.Valid() && store.unlogged == {right} && right in store.pages && right != HEADER_PAGE_ID && right !in store.free
      requires page in store.pages && page !in store.free && page != HEADER_PAGE_ID && page != right
      requires page in info && store.pages[page].Internal? && |store.pages[page].cells| >= 3
      requires forall c :: c in Kids(store.pages[page]) ==>
                 c in store.pages && c !in store.free && c != HEADER_PAGE_ID && c != page && c != right
      modifies store`pages, store`active, store`unlogged, this`info
      ensures store.Valid() && store.unlogged == {}
      ensures HalvedInternal(old(store.pages), store.pages, page, old(store.pages)[page].cells[|old(store.pages)[page].cells| / 2].key, right)
      ensures T() == InsertSteps.SplitInternal(old(T()), page, right, |old(store.pages)[page].cells| / 2)
    {
      hide Pager.Valid;
      ghost var t := T();
      var n := store.pages[page];
      var mid := |n.cells| / 2;
      var rightNode := Internal(n.parent, n.rightmost, n.cells[mid + 1..]);
      forall c | c in Kids(rightNode) ensures c in Kids(n) {
        var s :| 0 <= s < |Kids(rightNode)| && Kids(rightNode)[s] == c;
        assert Kids(n)[mid + 1 + s] == c;
      }
      store.Put(right, rightNode);
      store.Put(page, Internal(n.parent, n.cells[mid].child, n.cells[..mid]));
      AdoptChildren(Kids(rightNode), right);
      store.Log(page);
      store.Log(right);
      info := InsertSteps.SplitInternal(t, page, right, mid).info;
    }

    /** The part of split_internal that precedes insert_into_parent. */
    method DivideInternal(page: PageId) returns (promotedKey: Key, right: PageId)
      requires Ready() && Shaped(T(), INVALID_PAGE)
      requires page in info && info[page].level > 0 && SettledAbove(T(), info[page].level - 1)
      requires |store.pages[page].cells| >= 3
      modifies store`pages, store`total, store`firstFree, store`active, store`free, store`unlogged, this`info
      ensures Ready() && Shaped(T(), INVALID_PAGE) && Pending(T(), page, promotedKey, right)
      ensures page in info && info[page].level == old(info[page].level) && SettledAbove(T(), info[page].level)
      ensures forall p :: p in info && info[p].level == info[page].level && p != page && p != right ==> Settled(info[p])
      ensures SameUpTo(old(T()), T(), info[page].level - 1)
      ensures Conserved(old(Owns()), Owns())
      ensures HalvedInternal(old(store.pages), store.pages, page, promotedKey, right)
      ensures Slack(T(), store.total) == old(Slack(T(), store.total)) - 2
      ensures DividesSizes(old(T()), T(), promotedKey) && HalvedAbove(old(T()), T(), page)
    {
      hide Pager.Valid, NodeOk, Slack, SmallKey, SameUpTo, Pending, InsertSteps.SplitInternal, Conserved, HalvedInternal, DividesSizes, HalvedAbove;
      ghost var t0, own0 := T(), Owns();
      var mid := |store.pages[page].cells| / 2;
      promotedKey := store.pages[page].cells[mid].key;
      hide Shaped, Owned;
      right := AllocatePage(INVALID_PAGE);
      ghost var t1, own1 := T(), Owns().(tree := info.Keys + {right});
      KidsAreOwned(t1, own1, page, right);
      Divided(t0, t1, page, right, mid, store.total);
      DivideInternalSizes(t0, t1, page, right, mid);
      DivideInternalHalves(t0, t1, page, right, mid);
      hide SamePages;
      WriteHalves(page, right);
      ConservedSplit(own0, own1, t1, T(), right);
      HalvedBefore(t0.pages, t1.pages, store.pages, page, promotedKey, right);
    }

    method SplitInternal(page: PageId)
      requires Ready() && Shaped(T(), INVALID_PAGE)
      requires page in info && info[page].level > 0 && SettledAbove(T(), info[page].level - 1)
      requires |store.pages[page].cells| >= 3
      modifies store`pages, store`total, store`firstFree, store`active, store`free, store`unlogged, this
      ensures Ready() && Shaped(T(), INVALID_PAGE) && SettledAbove(T(), old(info[page].level - 1))
      ensures SameUpTo(old(T()), T(), old(info[page].level - 1))
      ensures Conserved(old(Owns()), Owns())
      ensures Slack(T(), store.total) + 1 <= old(Slack(T(), store.total))
      ensures KeepsSizes(old(T()), T()) && HalvedAbove(old(T()), T(), page)
      decreases Slack(T(), store.total), 0
    {
      hide Pager.Valid, NodeOk, Slack, SameUpTo, Conserved, KeepsSizes, DividesSizes, LinksSizes, HalvedAbove;
      ghost var t0, own0, l := T(), Owns(), info[page].level;
      var promotedKey, right := DivideInternal(page);
      ghost var t1, own1 := T(), Owns();
      InsertIntoParent(page, promotedKey, right);
      ConservedTrans(own0, own1, Owns());
      SplitThenListed(t0, t1, page, right, T(), l);
      SplitSizes(t0, t1, T(), promotedKey);
      HalvedAboveStays(t0, t1, page, right, T(), l);
    }

    method WriteNewRoot(left: PageId, sep: Key, right: PageId, top: PageId)
      requires store.Valid() && store.unlogged == {top} && top in store.pages && top !in store.free && top != HEADER_PAGE_ID
      requires left in store.pages && left !in store.free && left != HEADER_PAGE_ID
      requires right in store.pages && right !in store.free && right != HEADER_PAGE_ID
      requires top != left && top != right && left != right
      modifies store`pages, store`active, store`unlogged
      ensures store.Valid() && store.unlogged == {}
      ensures store.pages == old(store.pages)[top := Internal(INVALID_PAGE, right, [InternalEntry(sep, left)])]
                             [left := WithParent(old(store.pages)[left], top)][right := WithParent(old(store.pages)[right], top)]
    {
      hide Pager.Valid;
      store.Put(top, Internal(INVALID_PAGE, right, [InternalEntry(sep, left)]));
      store.Log(top);
      AdoptChild(left, top);
      AdoptChild(right, top);
    }

    /** Above a split root, a new one. */
    method GrowNewRoot(left: PageId, sep: Key, right: PageId)
      requires Ready() && Shaped(T(), INVALID_PAGE) && Pending(T(), left, sep, right)
      requires SettledAbove(T(), info[left].level) && left == root
      modifies store`pages, store`total, store`firstFree, store`active, store`free, store`unlogged, this
      ensures Ready() && Shaped(T(), INVALID_PAGE) && SettledAbove(T(), old(info[left].level))
      ensures SameUpTo(old(T().(info := Listed(info, left, right))), T(), old(info[left].level))
      ensures Conserved(old(Owns()), Owns())
      ensures Slack(T(), store.total) == old(Slack(T(), store.total))
      ensures LinksSizes(old(T()), T(), sep)
    {
      hide Pager.Valid, NodeOk, Slack, SmallKey, SameUpTo, GrowRoot, Conserved, LinksSizes;
      ghost var t0, own0 := T(), Owns();
      var top := AllocatePage(INVALID_PAGE);
      ghost var t1, own1 := T(), Owns().(tree := info.Keys + {top});
      Grown(t0, t1, left, sep, right, top, store.total);
      GrowRootSizes(t0, t1, left, sep, right, top);
      WriteNewRoot(left, sep, right, top);
      root := top;
      info := GrowRoot(t1, left, sep, right, top).info;
      GrownPages(t1, left, sep, right, top, store.pages, T());
      ConservedRewrite(own0, own1, Owns());
    }

    /** The entry (sep, left) is sorted into the node's cells, and the slot after it set to `right`. */
    static method WithCell(n: Page, left: PageId, sep: Key, right: PageId, ghost s: nat) returns (idx: nat, node: Page)
      requires n.Internal? && s <= |n.cells|
      requires forall j :: 0 <= j < s ==> Lt(n.cells[j].key, sep)
      requires forall j :: s <= j < |n.cells| ==> !Lt(n.cells[j].key, sep)
      ensures idx == s && node == LinkedNode(n, idx, left, sep, right)
    {
      hide Lt;
      idx := 0;
      while idx < |n.cells| && Lt(n.cells[idx].key, sep)
        invariant idx <= s
      {
        idx := idx + 1;
      }
      var cells := n.cells[..idx] + [InternalEntry(sep, left)] + n.cells[idx..];
      var rightmost := n.rightmost;
      if idx + 1 < |cells| {
        cells := cells[idx + 1 := cells[idx + 1].(child := right)];
      } else {
        rightmost := right;
      }
      node := Internal(n.parent, rightmost, cells);
    }

    /** The separator and the right half enter the parent. */
    method LinkInParent(left: PageId, sep: Key, right: PageId, parent: PageId)
      requires Ready() && Shaped(T(), INVALID_PAGE) && Pending(T(), left, sep, right)
      requires SettledAbove(T(), info[left].level) && left != root && parent == ParentOf(store.pages[left])
      modifies store`pages, store`total, store`firstFree, store`active, store`free, store`unlogged, this`info
      ensures Ready() && Shaped(T(), INVALID_PAGE) && SettledAbove(T(), old(info[left].level))
      ensures SameUpTo(old(T().(info := Listed(info, left, right))), T(), old(info[left].level))
      ensures Conserved(old(Owns()), Owns())
      ensures Slack(T(), store.total) == old(Slack(T(), store.total)) + 1
      ensures parent in info && info[parent].level == old(info[left].level) + 1
      ensures LinksWithRoom(old(T()), T(), sep, parent)
    {
      hide Pager.Valid, NodeOk, Slack, SmallKey, SameUpTo, Conserved, LinksWithRoom;
      ghost var t0, own0 := T(), Owns();
      ghost var s := ListedSlot(t0, left);
      var n := store.pages[parent];
      SeparatorPlace(t0, left, sep, right, n, info[parent].lo, info[parent].hi, s);
      var idx, node := WithCell(n, left, sep, right, s);
      LinkedIn(t0, left, sep, right, parent, idx, store.total);
      LinkSizes(t0, left, sep, right, parent, idx);
      store.Put(parent, node);
      store.Log(parent);
      AdoptChild(right, parent);
      info := LinkRight(t0, left, sep, right, parent, idx).info;
      assert T() == LinkRight(t0, left, sep, right, parent, idx);
      ConservedSelf(own0);
      ConservedRewrite(own0, own0, Owns());
    }

    method InsertIntoParent(left: PageId, sep: Key, right: PageId)
      requires Ready() && Shaped(T(), INVALID_PAGE) && Pending(T(), left, sep, right)
      requires SettledAbove(T(), info[left].level)
      modifies store`pages, store`total, store`firstFree, store`active, store`free, store`unlogged, this
      ensures Ready() && Shaped(T(), INVALID_PAGE) && SettledAbove(T(), old(info[left].level))
      ensures SameUpTo(old(T().(info := Listed(info, left, right))), T(), old(info[left].level))
      ensures Conserved(old(Owns()), Owns())
      ensures Slack(T(), store.total) <= old(Slack(T(), store.total)) + 1
      ensures LinksSizes(old(T()), T(), sep)
      decreases Slack(T(), store.total) + 1, 2
    {
      hide Pager.Valid, NodeOk, Slack, SameUpTo, Conserved, KeepsSizes, LinksSizes, LinksWithRoom, HalvedAbove;
      ghost var t0, own0, l := T(), Owns(), info[left].level;
      var parent := ParentOf(store.pages[left]);
      ghost var s := ListedSlot(t0, left);
      if parent == INVALID_PAGE {
        GrowNewRoot(left, sep, right);
        return;
      }
      var wouldOverflow := InternalEntrySize(sep) > CAPACITY - Used(store.pages[parent]);
      if wouldOverflow {
        CrowdedInternalHasFour(store.pages[parent].cells, InternalEntrySize(sep));
        SplitInternal(parent);
        SameUpToKeeps(t0, T(), l, left);
        parent := ParentOf(store.pages[left]);
      }
      ghost var t1, own1 := T(), Owns();
      AfterFirstSplit(t0, t1, left, sep, right, l, wouldOverflow);
      if !wouldOverflow {
        ConservedSelf(own0);
      }
      LinkInParent(left, sep, right, parent);
      ghost var t2 := T();
      SameUpToTrans(t0.(info := Listed(t0.info, left, right)), t1.(info := Listed(t1.info, left, right)), t2, l);
      ConservedTrans(own0, own1, Owns());
      ghost var own2 := Owns();
      SplitIfFull(parent, l);
      LinkAfterSplit(t0, left, t1, t2, T(), sep, wouldOverflow);
      SameUpToTrans(t0.(info := Listed(t0.info, left, right)), t2, T(), l);
      ConservedTrans(own0, own2, Owns());
    }

    /** The proactive split of a parent whose free space fell below the safety margin. */
    method SplitIfFull(parent: PageId, ghost l: nat)
      requires Ready() && Shaped(T(), INVALID_PAGE) && SettledAbove(T(), l)
      requires parent in info && info[parent].level == l + 1
      modifies store`pages, store`total, store`firstFree, store`active, store`free, store`unlogged, this
      ensures Ready() && Shaped(T(), INVALID_PAGE) && SettledAbove(T(), l)
      ensures SameUpTo(old(T()), T(), l)
      ensures old(!IsFull(store.pages[parent])) ==> T() == old(T())
      ensures Conserved(old(Owns()), Owns())
      ensures Slack(T(), store.total) <= old(Slack(T(), store.total))
      ensures KeepsSizes(old(T()), T())
      decreases Slack(T(), store.total), 1
    {
      hide Pager.Valid, NodeOk, Slack, KeepsSizes, HalvedAbove;
      KeepsSelf(T());
      if IsFull(store.pages[parent]) {
        CellsFacts(T(), parent, INVALID_PAGE);
        CrowdedInternalHasFour(store.pages[parent].cells, SAFETY_MARGIN);
        SplitInternal(parent);
      }
    }

    // ------------------------------------------------------------ searching

    /** BTreeNode::find_child_for_key: the slot to descend into. */
    static method FindChildForKey(n: Page, key: Key) returns (s: nat)
      requires n.Internal?
      ensures s <= |n.cells|
      ensures forall j :: 0 <= j < s ==> !Lt(key, n.cells[j].key)
      ensures s < |n.cells| ==> Lt(key, n.cells[s].key)
    {
      s := 0;
      while s < |n.cells|
        invariant s <= |n.cells|
        invariant forall j :: 0 <= j < s ==> !Lt(key, n.cells[j].key)
      {
        if Lt(key, n.cells[s].key) {
          return;
        }
        s := s + 1;
      }
    }

    method FindLeafPageWithPath(key: Key) returns (leaf: PageId, path: seq<PageId>)
      requires Valid()
      ensures leaf in info && info[leaf].level == 0 && In(key, info[leaf].lo, info[leaf].hi)
      ensures PathOk(T(), leaf, path)
    {
      hide Pager.Valid, Lt, ValuesSize, NodeOk;
      leaf, path := root, [];
      assert NodeOk(T(), root, INVALID_PAGE);
      while store.pages[leaf].Internal?
        invariant leaf in info && In(key, info[leaf].lo, info[leaf].hi) && PathOk(T(), leaf, path)
        decreases info[leaf].level
      {
        var s := FindChildForKey(store.pages[leaf], key);
        Descend(T(), leaf, path, s, key);
        path := path + [leaf];
        leaf := Child(store.pages[leaf], s);
      }
    }

    method FindLeafPage(key: Key) returns (leaf: PageId)
      requires Valid()
      ensures leaf in info && info[leaf].level == 0 && In(key, info[leaf].lo, info[leaf].hi)
    {
      var path;
      leaf, path := FindLeafPageWithPath(key);
    }

    /** BTreeNode::find_in_leaf: the position of the key, or the number of entries. */
    static method FindInLeaf(entries: seq<LeafEntry>, key: Key) returns (i: nat)
      ensures i <= |entries| && (i < |entries| ==> entries[i].key == key)
      ensures i == |entries| ==> !HasKey(entries, key)
    {
      i := 0;
      while i < |entries| && entries[i].key != key
        invariant i <= |entries| && forall j :: 0 <= j < i ==> entries[j].key != key
      {
        i := i + 1;
      }
    }

    /** The search of a tree opened with this page as its root: it finds the keys of the page's interval. */
    method SearchFrom(start: PageId, key: Key) returns (value: Option<Bytes>)
      requires Valid() && start in info
      ensures value == if key in m && In(key, info[start].lo, info[start].hi) then Some(m[key]) else None
      ensures value == Lookup(store.pages, start, key, info[start].level)
    {
      LookupFinds(T(), start, key);
      hide Pager.Valid, Lt, ValuesSize, NodeOk;
      var leaf := start;
      while store.pages[leaf].Internal?
        invariant leaf in info && (In(key, info[leaf].lo, info[leaf].hi) <==> In(key, info[start].lo, info[start].hi))
        decreases info[leaf].level
      {
        var s := FindChildForKey(store.pages[leaf], key);
        DescendFrom(T(), leaf, s, key);
        leaf := Child(store.pages[leaf], s);
      }
      LeafFacts(T(), leaf);
      var entries := store.pages[leaf].entries;
      var i := FindInLeaf(entries, key);
      if i < |entries| {
        value := Some(entries[i].value);
      } else {
        value := None;
      }
    }

    /** Search reads the map the tree represents. */
    method Search(key: Key) returns (value: Option<Bytes>)
      requires Valid()
      ensures value == if key in m then Some(m[key]) else None
    {
      value := SearchFrom(root, key);
    }

    // ------------------------------------------------------------ insertion

    /** The part of split_leaf that precedes insert_into_parent. */
    method DivideLeaf(leaf: PageId) returns (splitKey: Key, right: PageId)
      requires Valid() && leaf in info && info[leaf].level == 0 && |store.pages[leaf].entries| >= 2
      modifies store`pages, store`total, store`firstFree, store`active, store`free, store`unlogged, this`info
      ensures Ready() && Shaped(T(), INVALID_PAGE) && Pending(T(), leaf, splitKey, right) && SettledAbove(T(), 0)
      ensures leaf in info && info[leaf].level == 0
      ensures forall q :: q in info && q != leaf && q != right ==> Settled(info[q])
      ensures Conserved(old(Owns()), Owns())
      ensures old(info.Keys) <= info.Keys && splitKey in m
      ensures HalvedLeaf(old(store.pages), store.pages, leaf, right)
      ensures right in info && info[leaf].lo == old(info[leaf].lo) && info[right].level == 0 && info[right].hi == old(info[leaf].hi)
      ensures DividesSizes(old(T()), T(), splitKey)
    {
      hide Pager.Valid, NodeOk, Slack, SmallKey, Pending, InsertSteps.SplitLeaf, Conserved, DividesSizes;
      ghost var t0, own0 := T(), Owns();
      var n := store.pages[leaf];
      var mid := |n.entries| / 2;
      right := AllocatePage(INVALID_PAGE);
      ghost var t1, own1 := T(), Owns().(tree := info.Keys + {right});
      DividedLeaf(t1, leaf, right, mid);
      DivideLeafSizes(t0, t1, leaf, right, mid);
      WriteTwo(right, Leaf(n.parent, n.next, n.entries[mid..]), leaf, Leaf(n.parent, right, n.entries[..mid]));
      splitKey := n.entries[mid].key;
      EntryInMap(t1, leaf, mid);
      info := InsertSteps.SplitLeaf(t1, leaf, right, mid).info;
      SplitLeafPages(t1, leaf, right, mid);
      assert T() == InsertSteps.SplitLeaf(t1, leaf, right, mid);
      ConservedRewrite(own0, own1, Owns());
    }

    method SplitLeaf(leaf: PageId)
      requires Valid() && leaf in info && info[leaf].level == 0 && |store.pages[leaf].entries| >= 2
      modifies store`pages, store`total, store`firstFree, store`active, store`free, store`unlogged, this
      ensures Valid() && m == old(m) && Conserved(old(Owns()), Owns())
      ensures old(info.Keys) <= info.Keys && info[leaf].hi.At? && info[leaf].hi.key in m
      ensures KeepsSizes(old(T()), T()) && HalvedBelow(old(T()), T(), leaf)
    {
      hide Pager.Valid, NodeOk, Slack, SameUpTo, Conserved, KeepsSizes, DividesSizes, LinksSizes, HalvedBelow;
      ghost var t0, own0 := T(), Owns();
      var splitKey, right := DivideLeaf(leaf);
      ghost var t1, own1 := T(), Owns();
      InsertIntoParent(leaf, splitKey, right);
      ConservedTrans(own0, own1, Owns());
      LeafSplitSettles(t1, leaf, right, T());
      SplitSizes(t0, t1, T(), splitKey);
      SplitHalves(t0, t1, T(), leaf, right, splitKey);
    }

    /** The entry is sorted into a leaf that has room for it. */
    method InsertIntoLeaf(leaf: PageId, key: Key, value: Bytes)
      requires Valid() && leaf in info && info[leaf].level == 0 && In(key, info[leaf].lo, info[leaf].hi)
      requires key !in m && SmallEntry(LeafEntry(key, value))
      modifies store`pages, store`total, store`firstFree, store`active, store`free, store`unlogged, this`m
      ensures Valid() && m == old(m)[key := value] && Conserved(old(Owns()), Owns())
      ensures AddsWithRoom(old(T()), T(), LeafEntry(key, value), old(|store.pages[leaf].entries|))
    {
      hide Pager.Valid, NodeOk, Slack, SmallKey, Conserved, AddsWithRoom;
      ghost var t0, own0 := T(), Owns();
      var n := store.pages[leaf];
      LeafFacts(t0, leaf);
      var i := PlaceInLeaf(n.entries, key);
      store.Put(leaf, n.(entries := WithEntry(n.entries, i, LeafEntry(key, value))));
      store.Log(leaf);
      AddEntryKeeps(t0, leaf, i, LeafEntry(key, value));
      AddSizes(t0, leaf, i, LeafEntry(key, value));
      m := m[key := value];
      assert T() == AddEntry(t0, leaf, i, LeafEntry(key, value));
      ConservedSelf(own0);
      ConservedRewrite(own0, own0, Owns());
    }

    /** Where std::sort puts an entry appended to sorted ones. */
    static method PlaceInLeaf(entries: seq<LeafEntry>, key: Key) returns (i: nat)
      requires EntriesSorted(entries) && !HasKey(entries, key)
      ensures SortedPlace(entries, i, key)
    {
      hide Lt;
      OrderLaws();
      i := 0;
      while i < |entries| && Lt(entries[i].key, key)
        invariant i <= |entries| && forall j :: 0 <= j < i ==> Lt(entries[j].key, key)
      {
        i := i + 1;
      }
    }

    /** BTree::insert inside a transaction: the map gains the pair, or the key was there and nothing changes. */
    method InsertIn(key: Key, value: Bytes) returns (outcome: Outcome)
      requires Valid() && SmallEntry(LeafEntry(key, value))
      modifies store`pages, store`total, store`firstFree, store`active, store`free, store`unlogged, this
      ensures Valid() && Conserved(old(Owns()), Owns())
      ensures old(info.Keys) <= info.Keys && (root != old(root) && old(info[root].level) == 0 ==> Overlooks(T().(m := old(m)), old(root)))
      ensures outcome == if key in old(m) then DuplicateKey else Done
      ensures m == if key in old(m) then old(m) else old(m)[key := value]
      ensures outcome.DuplicateKey? ==> T() == old(T()) && store.active == old(store.active)
      ensures outcome.DuplicateKey? ==> Owns() == old(Owns()) && store.firstFree == old(store.firstFree)
      ensures AddsSizes(old(T()), T(), LeafEntry(key, value))
    {
      hide Pager.Valid, NodeOk, Slack, SmallKey, Conserved, AddsSizes, AddsWithRoom, KeepsSizes, HalvedBelow;
      ghost var t0, own0 := T(), Owns();
      ConservedSelf(own0);
      var leaf := FindLeafPage(key);
      LeafFacts(T(), leaf);
      var entries := store.pages[leaf].entries;
      var i := FindInLeaf(entries, key);
      if i < |entries| {
        AddsSelf(T(), LeafEntry(key, value));
        return DuplicateKey;
      }
      var wouldOverflow := LeafEntrySize(LeafEntry(key, value)) > CAPACITY - Used(store.pages[leaf]);
      ghost var split := leaf;
      if wouldOverflow {
        OverflowingLeafHasTwo(entries, LeafEntry(key, value));
        LeafRoot(T(), leaf);
        SplitLeaf(leaf);
        leaf := FindLeafPage(key);
        HalvedFor(t0, T(), split, key, leaf);
      }
      ghost var t1, own1, room := T(), Owns(), |store.pages[leaf].entries|;
      InsertIntoLeaf(leaf, key, value);
      AddAfterSplit(t0, split, t1, T(), LeafEntry(key, value), room, wouldOverflow);
      ConservedTrans(own0, own1, Owns());
      return Done;
    }

    /** BTree::insert as a transaction of its own.  Replaying the images it logged on the state it began with
        rebuilds tree, free list and header. */
    method Insert(key: Key, value: Bytes) returns (outcome: Outcome, ghost images: map<PageId, Page>)
      requires Valid() && SmallEntry(LeafEntry(key, value))
      modifies this, store
      ensures Valid() && ConservedApart(old(Owns()), Owns())
      ensures old(info.Keys) <= info.Keys && (root != old(root) && old(info[root].level) == 0 ==> Overlooks(T().(m := old(m)), old(root)))
      ensures outcome == if key in old(m) then DuplicateKey else Done
      ensures m == if key in old(m) then old(m) else old(m)[key := value]
      ensures Replays(old(store.pages), old(store.firstFree), images, store.pages, store.firstFree)
      ensures images == if outcome.Done? then store.committed else map[]
      ensures AddsSizes(old(T()), T(), LeafEntry(key, value))
    {
      hide Pager.Valid, NodeOk, Slack, SmallKey, Conserved, ConservedApart, AddsSizes, KeepsSizes;
      ghost var t0, own0 := T(), Owns();
      ConservedSelf(own0);
      store.Begin();
      outcome := InsertIn(key, value);
      images := store.active;
      ghost var t1, own1 := T(), Owns();
      if outcome.Done? {
        CommitTree();
        TreePagesExist(t1, INVALID_PAGE);
      }
      CommitConserves(own0, own1, Owns());
      AddsThenSame(t0, t1, T(), LeafEntry(key, value));
    }

    /** The catalog learns of a new root in a transaction of its own that follows the insertion.  A tree opened
        by the number the catalog still holds finds the keys of that page's interval: all keys if and only if
        the root did not change, and not all that were there before when the tree was a single leaf. */
    method SearchByOldRoot(key: Key, value: Bytes, probe: Key) returns (outcome: Outcome, found: Option<Bytes>)
      requires Valid() && SmallEntry(LeafEntry(key, value))
      modifies this, store
      ensures Valid() && outcome == (if key in old(m) then DuplicateKey else Done)
      ensures m == if key in old(m) then old(m) else old(m)[key := value]
      ensures old(root) in info
      ensures found == if probe in m && In(probe, info[old(root)].lo, info[old(root)].hi) then Some(m[probe]) else None
      ensures root == old(root) <==> info[old(root)].lo.NegInf? && info[old(root)].hi.PosInf?
      ensures root != old(root) && old(info[root].level) == 0 ==> Overlooks(T().(m := old(m)), old(root))
    {
      hide Pager.Valid, NodeOk, Replays, ConservedApart;
      var known := root;
      ghost var images;
      outcome, images := Insert(key, value);
      found := SearchFrom(known, probe);
      OnlyTheRootHasAll(T(), known);
    }

    /** The commit's copy-back changes no page of the tree. */
    method CommitTree()
      requires Valid()
      modifies store`pages, store`active, store`base, store`baseFirstFree, store`committed
      ensures Valid() && T() == old(T()).(pages := store.pages)
      ensures store.pages.Keys == old(store.pages).Keys && store.committed == old(store.active)
      ensures forall p :: p in store.pages && p != HEADER_PAGE_ID ==> store.pages[p] == old(store.pages)[p]
      ensures Replays(old(store.base), old(store.baseFirstFree), old(store.active), store.pages, store.firstFree)
    {
      hide Pager.Valid, NodeOk, Replays;
      ghost var t0 := T();
      store.Commit();
      ShapeFrame(t0, T(), INVALID_PAGE);
    }

    // ------------------------------------------------------------ removal: siblings

    /** BTree::find_siblings: the position of a page among its parent's children. */
    static method FindAmongChildren(n: Page, page: PageId) returns (idx: nat)
      requires n.Internal? && IsChild(n, page)
      ensures idx <= |n.cells| && Child(n, idx) == page
    {
      ghost var s: nat :| s <= |n.cells| && Child(n, s) == page;
      idx := 0;
      while idx < |n.cells| && Child(n, idx) != page
        invariant idx <= s
      {
        idx := idx + 1;
      }
    }

    /** The separator that equals `old` is replaced. */
    static method ReplaceSeparator(n: Page, oldKey: Key, newKey: Key, ghost j: nat) returns (node: Page)
      requires n.Internal? && j < |n.cells| && n.cells[j].key == oldKey
      requires forall i :: 0 <= i < j ==> n.cells[i].key != oldKey
      ensures node == Reseparated(n, j, newKey)
    {
      var i := 0;
      while i < |n.cells| && n.cells[i].key != oldKey
        invariant i <= j
      {
        i := i + 1;
      }
      node := n.(cells := n.cells[i := n.cells[i].(key := newKey)]);
    }

    /** The first entry that points to `from` is redirected to `into`. */
    static method RedirectChild(cells: seq<InternalEntry>, into: PageId, from: PageId, ghost at: nat)
      returns (redirected: seq<InternalEntry>)
      requires at <= |cells| && forall i :: 0 <= i < |cells| ==> (cells[i].child == from <==> i == at)
      ensures redirected == if at < |cells| then cells[at := cells[at].(child := into)] else cells
    {
      redirected := cells;
      for i := 0 to |cells|
        invariant i <= at
      {
        if cells[i].child == from {
          return cells[i := cells[i].(child := into)];
        }
      }
    }

    /** The entry with key sep is erased. */
    static method EraseKey(cells: seq<InternalEntry>, sep: Key, ghost j: nat) returns (kept: seq<InternalEntry>)
      requires j < |cells| && forall i :: 0 <= i < |cells| ==> (cells[i].key == sep <==> i == j)
      ensures kept == cells[..j] + cells[j + 1..]
    {
      kept := [];
      for i := 0 to |cells|
        invariant kept == if i <= j then cells[..i] else cells[..j] + cells[j + 1..i]
      {
        if cells[i].key != sep {
          kept := kept + [cells[i]];
        }
      }
    }

    /** The slot that points to `from` is redirected to `into`, and the separator between them erased. */
    static method DropSeparator(n: Page, into: PageId, from: PageId, sep: Key, ghost j: nat) returns (node: Page)
      requires n.Internal? && j < |n.cells| && n.cells[j].key == sep && Child(n, j) == into && Child(n, j + 1) == from
      requires forall i: nat :: i < |n.cells| && i != j ==> n.cells[i].key != sep
      requires forall s: nat :: s <= |n.cells| && s != j + 1 ==> Child(n, s) != from
      ensures node == UnlinkedNode(n, j, into)
    {
      forall i: nat | i < |n.cells| ensures n.cells[i].child == from <==> i == j + 1 {
        assert Child(n, i) == n.cells[i].child;
      }
      assert Child(n, |n.cells|) == n.rightmost;
      var cells := RedirectChild(n.cells, into, from, j + 1);
      var kept := EraseKey(cells, sep, j);
      node := Internal(n.parent, if n.rightmost == from then into else n.rightmost, kept);
    }

    // ------------------------------------------------------------ removal: redistribution

    /** A node is rewritten and logged. */
    method Write(page: PageId, node: Page)
      requires store.Valid() && page in store.pages && page !in store.free && page != HEADER_PAGE_ID
      modifies store`pages, store`active, store`unlogged
      ensures store.Valid() && store.unlogged == old(store.unlogged) - {page}
      ensures store.pages == old(store.pages)[page := node]
    {
      hide Pager.Valid;
      store.Put(page, node);
      store.Log(page);
    }

    /** The writes that move the last entry of the left sibling to the front of the page. */
    method MoveLastEntry(page: PageId, left: PageId, leftKey: Key, parent: PageId, ghost j: nat)
      requires Ready() && {page, left, parent} <= info.Keys && page != left && page != parent && left != parent
      requires store.pages[page].Leaf? && store.pages[left].Leaf? && store.pages[left].entries != [] && store.pages[parent].Internal?
      requires j < |store.pages[parent].cells| && store.pages[parent].cells[j].key == leftKey
      requires forall i :: 0 <= i < j ==> store.pages[parent].cells[i].key != leftKey
      modifies store`pages, store`active, store`unlogged
      ensures store.Valid() && store.unlogged == {}
      ensures var l, c, x := old(store.pages)[left], old(store.pages)[page], |old(store.pages)[left].entries| - 1;
        store.pages == old(store.pages)[left := l.(entries := l.entries[..x])][page := c.(entries := [l.entries[x]] + c.entries)]
                                       [parent := Reseparated(old(store.pages)[parent], j, l.entries[x].key)]
      ensures EntryMoved(old(store.pages), store.pages, left, page, true)
    {
      hide Pager.Valid, EntryMoved, Reseparated;
      ghost var pages0 := store.pages;
      var l, c := store.pages[left], store.pages[page];
      var borrowed := l.entries[|l.entries| - 1];
      Write(left, l.(entries := l.entries[..|l.entries| - 1]));
      Write(page, c.(entries := [borrowed] + c.entries));
      var node := ReplaceSeparator(store.pages[parent], leftKey, borrowed.key, j);
      Write(parent, node);
      EntryHasMoved(pages0, store.pages, left, page, true);
    }

    /** The last entry of the left sibling moves to the front of the page. */
    method BorrowLeafFromLeft(page: PageId, left: PageId, leftKey: Key, parent: PageId, ghost j: nat)
      requires Valid() && parent in info && info[parent].level == 1 && j < |store.pages[parent].cells|
      requires Child(store.pages[parent], j) == left && Child(store.pages[parent], j + 1) == page
      requires store.pages[parent].cells[j].key == leftKey
      requires left in store.pages && store.pages[left].Leaf? && |store.pages[left].entries| >= 2
      modifies store`pages, store`total, store`firstFree, store`active, store`free, store`unlogged, this`info
      ensures Valid() && Conserved(old(Owns()), Owns()) && info.Keys == old(info.Keys)
      ensures EntryMoved(old(store.pages), store.pages, left, page, true)
      ensures Underfull(old(T()), page) ==> KeepsSizes(old(T()), T())
    {
      hide Pager.Valid, NodeOk, Conserved, Lt, ValuesSize, ShiftLeaves, KeySize, SmallEntry, KeepsSizes, EntryMoved, Reseparated;
      ghost var t0, own0, x := T(), Owns(), |store.pages[left].entries| - 1;
      Neighbours(t0, parent, j, INVALID_PAGE);
      NodeDistinct(t0, parent, j, INVALID_PAGE);
      BorrowLeafLeftIsShift(t0, parent, j);
      BorrowLeafSizes(t0, parent, j, x, page);
      MoveLastEntry(page, left, leftKey, parent, j);
      info := ShiftLeaves(t0, parent, j, x).info;
      assert T() == ShiftLeaves(t0, parent, j, x);
      ConservedSelf(own0);
      ConservedRewrite(own0, own0, Owns());
    }

    /** The writes that move the first entry of the right sibling to the end of the page. */
    method MoveFirstEntry(page: PageId, right: PageId, rightKey: Key, parent: PageId, ghost j: nat)
      requires Ready() && {page, right, parent} <= info.Keys && page != right && page != parent && right != parent
      requires store.pages[page].Leaf? && store.pages[right].Leaf? && store.pages[right].entries != [] && store.pages[parent].Internal?
      requires j < |store.pages[parent].cells| && store.pages[parent].cells[j].key == rightKey
      requires forall i :: 0 <= i < j ==> store.pages[parent].cells[i].key != rightKey
      modifies store`pages, store`active, store`unlogged
      ensures store.Valid() && store.unlogged == {}
      ensures store.pages == FirstEntryMoved(old(store.pages), page, right, parent, j)
      ensures EntryMoved(old(store.pages), store.pages, right, page, false)
    {
      hide Pager.Valid, EntryMoved, Reseparated;
      ghost var pages0 := store.pages;
      var r, c := store.pages[right], store.pages[page];
      var borrowed := r.entries[0];
      var rest := r.entries[1..];
      Write(right, r.(entries := rest));
      Write(page, c.(entries := c.entries + [borrowed]));
      var newRightFirst := if rest == [] then borrowed.key else rest[0].key;
      var node := ReplaceSeparator(store.pages[parent], rightKey, newRightFirst, j);
      Write(parent, node);
      EntryHasMoved(pages0, store.pages, right, page, false);
    }

    /** The first entry of the right sibling moves to the end of the page. */
    method BorrowLeafFromRight(page: PageId, right: PageId, rightKey: Key, parent: PageId, ghost j: nat)
      requires Valid() && parent in info && info[parent].level == 1 && j < |store.pages[parent].cells|
      requires Child(store.pages[parent], j) == page && Child(store.pages[parent], j + 1) == right
      requires store.pages[parent].cells[j].key == rightKey
      requires right in store.pages && store.pages[right].Leaf? && |store.pages[right].entries| >= 2
      modifies store`pages, store`total, store`firstFree, store`active, store`free, store`unlogged, this`info
      ensures Valid() && Conserved(old(Owns()), Owns()) && info.Keys == old(info.Keys)
      ensures EntryMoved(old(store.pages), store.pages, right, page, false)
      ensures Underfull(old(T()), page) ==> KeepsSizes(old(T()), T())
    {
      hide Pager.Valid, NodeOk, Conserved, Lt, ValuesSize, ShiftLeaves, KeySize, SmallEntry, KeepsSizes, EntryMoved, Reseparated;
      ghost var t0, own0 := T(), Owns();
      Neighbours(t0, parent, j, INVALID_PAGE);
      NodeDistinct(t0, parent, j, INVALID_PAGE);
      ghost var x := |store.pages[page].entries| + 1;
      BorrowLeafRightIsShift(t0, parent, j);
      BorrowLeafSizes(t0, parent, j, x, page);
      MoveFirstEntry(page, right, rightKey, parent, j);
      info := ShiftLeaves(t0, parent, j, x).info;
      assert T() == ShiftLeaves(t0, parent, j, x);
      ConservedSelf(own0);
      ConservedRewrite(own0, own0, Owns());
    }

    /** The writes that move the last child of the left sibling below the page. */
    method RotateFromLeft(page: PageId, left: PageId, leftKey: Key, parent: PageId, ghost j: nat)
      requires Ready() && {page, left, parent} <= info.Keys && page != left && page != parent && left != parent
      requires store.pages[page].Internal? && store.pages[left].Internal? && store.pages[parent].Internal?
      requires store.pages[left].cells != [] && store.pages[left].rightmost in info
      requires store.pages[left].rightmost != page && store.pages[left].rightmost != left && store.pages[left].rightmost != parent
      requires j < |store.pages[parent].cells| && store.pages[parent].cells[j].key == leftKey
      requires Child(store.pages[parent], j) == left && Child(store.pages[parent], j + 1) == page
      requires forall i: nat :: i < |store.pages[parent].cells| && i != j ==> store.pages[parent].cells[i].key != leftKey
      modifies store`pages, store`active, store`unlogged
      ensures store.Valid() && store.unlogged == {}
      ensures store.pages == BorrowLeftPages(old(T()), parent, j)
      ensures ChildMoved(old(store.pages), store.pages, left, page, leftKey, true)
    {
      hide Pager.Valid;
      var l, c := store.pages[left], store.pages[page];
      var promoted := l.cells[|l.cells| - 1];
      store.Put(left, l.(rightmost := promoted.child, cells := l.cells[..|l.cells| - 1]));
      store.Put(page, c.(cells := [InternalEntry(leftKey, l.rightmost)] + c.cells));
      store.Log(left);
      store.Log(page);
      AdoptChild(l.rightmost, page);
      var node := ReplaceSeparator(store.pages[parent], leftKey, promoted.key, j);
      Write(parent, node);
    }

    /** The last child of the left sibling moves below the page, the separators rotate. */
    method BorrowInternalFromLeft(page: PageId, left: PageId, leftKey: Key, parent: PageId, ghost j: nat, ghost thin: PageId)
      requires Ready() && ValidBut(T(), thin) && (thin == page || thin == INVALID_PAGE)
      requires parent in info && info[parent].level > 1 && j < |store.pages[parent].cells|
      requires Child(store.pages[parent], j) == left && Child(store.pages[parent], j + 1) == page
      requires store.pages[parent].cells[j].key == leftKey
      requires left in store.pages && store.pages[left].Internal? && |store.pages[left].cells| >= 2
      modifies store`pages, store`total, store`firstFree, store`active, store`free, store`unlogged, this`info
      ensures Valid() && Conserved(old(Owns()), Owns()) && info.Keys == old(info.Keys)
      ensures ChildMoved(old(store.pages), store.pages, left, page, leftKey, true)
      ensures Underfull(old(T()), page) ==> KeepsSizes(old(T()), T())
    {
      hide Pager.Valid, NodeOk, Conserved, Lt, ValuesSize, ShiftInternals, BorrowLeftPages, KeepsSizes;
      ghost var t0, own0, x := T(), Owns(), |store.pages[left].cells| - 1;
      Neighbours(t0, parent, j, thin);
      NodeDistinct(t0, parent, j, thin);
      ShiftInternalsKeeps(t0, parent, j, x, thin);
      BorrowLeftIsShift(t0, parent, j, thin);
      ShiftedShape(t0, parent, j, x);
      BorrowInternalSizes(t0, parent, j, x, page, thin);
      RotateFromLeft(page, left, leftKey, parent, j);
      info := ShiftInternals(t0, parent, j, x).info;
      assert T() == ShiftInternals(t0, parent, j, x);
      ConservedSelf(own0);
      ConservedRewrite(own0, own0, Owns());
    }

    /** The writes that move the first child of the right sibling below the page. */
    method RotateFromRight(page: PageId, right: PageId, rightKey: Key, parent: PageId, ghost j: nat)
      requires Ready() && {page, right, parent} <= info.Keys && page != right && page != parent && right != parent
      requires store.pages[page].Internal? && store.pages[right].Internal? && store.pages[parent].Internal?
      requires store.pages[right].cells != [] && store.pages[right].cells[0].child in info
      requires store.pages[right].cells[0].child != page && store.pages[right].cells[0].child != right
      requires store.pages[right].cells[0].child != parent
      requires j < |store.pages[parent].cells| && store.pages[parent].cells[j].key == rightKey
      requires Child(store.pages[parent], j) == page && Child(store.pages[parent], j + 1) == right
      requires forall i: nat :: i < |store.pages[parent].cells| && i != j ==> store.pages[parent].cells[i].key != rightKey
      modifies store`pages, store`active, store`unlogged
      ensures store.Valid() && store.unlogged == {}
      ensures store.pages == BorrowRightPages(old(T()), parent, j)
      ensures ChildMoved(old(store.pages), store.pages, right, page, rightKey, false)
    {
      hide Pager.Valid;
      var r, c := store.pages[right], store.pages[page];
      var promoted := r.cells[0];
      store.Put(page, c.(rightmost := promoted.child, cells := c.cells + [InternalEntry(rightKey, c.rightmost)]));
      store.Put(right, r.(cells := r.cells[1..]));
      store.Log(right);
      store.Log(page);
      AdoptChild(promoted.child, page);
      var node := ReplaceSeparator(store.pages[parent], rightKey, promoted.key, j);
      Write(parent, node);
    }

    /** The first child of the right sibling moves below the page, the separators rotate. */
    method BorrowInternalFromRight(page: PageId, right: PageId, rightKey: Key, parent: PageId, ghost j: nat, ghost thin: PageId)
      requires Ready() && ValidBut(T(), thin) && (thin == page || thin == INVALID_PAGE)
      requires parent in info && info[parent].level > 1 && j < |store.pages[parent].cells|
      requires Child(store.pages[parent], j) == page && Child(store.pages[parent], j + 1) == right
      requires store.pages[parent].cells[j].key == rightKey
      requires right in store.pages && store.pages[right].Internal? && |store.pages[right].cells| >= 2
      modifies store`pages, store`total, store`firstFree, store`active, store`free, store`unlogged, this`info
      ensures Valid() && Conserved(old(Owns()), Owns()) && info.Keys == old(info.Keys)
      ensures ChildMoved(old(store.pages), store.pages, right, page, rightKey, false)
      ensures Underfull(old(T()), page) ==> KeepsSizes(old(T()), T())
    {
      hide Pager.Valid, NodeOk, Conserved, Lt, ValuesSize, ShiftInternals, BorrowRightPages, KeepsSizes;
      ghost var t0, own0 := T(), Owns();
      Neighbours(t0, parent, j, thin);
      NodeDistinct(t0, parent, j, thin);
      ghost var x := |store.pages[page].cells| + 1;
      ShiftInternalsKeeps(t0, parent, j, x, thin);
      BorrowRightIsShift(t0, parent, j, thin);
      ShiftedShape(t0, parent, j, x);
      BorrowInternalSizes(t0, parent, j, x, page, thin);
      RotateFromRight(page, right, rightKey, parent, j);
      info := ShiftInternals(t0, parent, j, x).info;
      assert T() == ShiftInternals(t0, parent, j, x);
      ConservedSelf(own0);
      ConservedRewrite(own0, own0, Owns());
    }

    /** BTree::try_redistribute: one entry is borrowed from a sibling that is not underfull, if there is one. */
    method TryRedistribute(page: PageId, parent: PageId) returns (done: bool)
      requires Ready() && ValidBut(T(), page) && page in info && page != root && parent == ParentOf(store.pages[page])
      modifies store`pages, store`total, store`firstFree, store`active, store`free, store`unlogged, this`info
      ensures done ==> Valid() && Conserved(old(Owns()), Owns()) && info.Keys == old(info.Keys)
      ensures done <==> exists donor, fromLeft :: CanDonate(old(store.pages), parent, page, donor, fromLeft)
      ensures done ==> exists donor, fromLeft, sep :: Borrowed(old(store.pages), store.pages, parent, page, donor, sep, fromLeft)
      ensures !done ==> T() == old(T()) && Owns() == old(Owns()) && Ready()
      ensures done && Underfull(old(T()), page) ==> KeepsSizes(old(T()), T())
    {
      hide Pager.Valid, NodeOk, Conserved, Lt, ValuesSize, EntriesOk, CellsOk, EntryMoved, ChildMoved, KeepsSizes;
      ghost var t0 := T();
      ghost var slot := SlotOf(t0, page, page);
      var n := store.pages[parent];
      var idx := FindAmongChildren(n, page);
      var isLeaf := store.pages[page].Leaf?;
      if isLeaf {
        Unthin(t0, page);
      }
      if idx > 0 {
        var left := Child(n, idx - 1);
        Neighbours(t0, parent, idx - 1, page);
        if !IsUnderfull(store.pages[left]) {
          DonorHasTwo(t0, left, page);
          if isLeaf {
            BorrowLeafFromLeft(page, left, n.cells[idx - 1].key, parent, idx - 1);
          } else {
            BorrowInternalFromLeft(page, left, n.cells[idx - 1].key, parent, idx - 1, page);
          }
          assert Borrowed(t0.pages, store.pages, parent, page, left, n.cells[idx - 1].key, true);
          return true;
        }
      }
      if idx < |n.cells| {
        var right := Child(n, idx + 1);
        Neighbours(t0, parent, idx, page);
        if !IsUnderfull(store.pages[right]) {
          DonorHasTwo(t0, right, page);
          if isLeaf {
            BorrowLeafFromRight(page, right, n.cells[idx].key, parent, idx);
          } else {
            BorrowInternalFromRight(page, right, n.cells[idx].key, parent, idx, page);
          }
          assert Borrowed(t0.pages, store.pages, parent, page, right, n.cells[idx].key, false);
          return true;
        }
      }
      ChildOnce(t0, parent, page, idx);
      return false;
    }

    // ------------------------------------------------------------ removal: merging

    /** The parts of a merge that differ between leaves and internal nodes are the same to the caller: child
        j + 1 of the parent disappears into child j. */
    ghost predicate MergeReady(into: PageId, from: PageId, sep: Key, parent: PageId, j: nat, thin: PageId)
      reads this, store
    {
      && Ready() && ValidBut(T(), thin) && (thin == into || thin == from || thin == INVALID_PAGE)
      && parent in info && info[parent].level > 0 && j < |store.pages[parent].cells|
      && Child(store.pages[parent], j) == into && Child(store.pages[parent], j + 1) == from
      && store.pages[parent].cells[j].key == sep
      && into in info && from in info
    }

    /** The entries of leaf `from` are appended to leaf `into`, which takes its place in the chain. */
    method MergeLeafPages(into: PageId, from: PageId, sep: Key, parent: PageId, ghost j: nat)
      requires MergeReady(into, from, sep, parent, j, INVALID_PAGE)
      requires info[parent].level == 1 && store.pages[into].Leaf? && store.pages[from].Leaf?
      modifies store`pages, store`active, store`unlogged
      ensures store.Valid() && store.unlogged == {}
      ensures store.pages == MergeLeaves(old(T()), parent, j).pages && Joined(old(store.pages), store.pages, into, from, sep)
    {
      hide Pager.Valid, NodeOk, Lt, ValuesSize, EntriesOk, CellsOk;
      ghost var t0 := T();
      Neighbours(t0, parent, j, INVALID_PAGE);
      NodeDistinct(t0, parent, j, INVALID_PAGE);
      var a, b := store.pages[into], store.pages[from];
      Write(into, Leaf(a.parent, b.next, a.entries + b.entries));
      var node := DropSeparator(store.pages[parent], into, from, sep, j);
      Write(parent, node);
    }

    /** The separator and the cells of node `from` are appended to node `into`, which adopts the children. */
    method MergeInternalPages(into: PageId, from: PageId, sep: Key, parent: PageId, ghost j: nat, ghost thin: PageId)
      requires MergeReady(into, from, sep, parent, j, thin)
      requires info[parent].level > 1 && store.pages[into].Internal? && store.pages[from].Internal?
      modifies store`pages, store`active, store`unlogged
      ensures store.Valid() && store.unlogged == {}
      ensures store.pages == MergeInternals(old(T()), parent, j).pages && Joined(old(store.pages), store.pages, into, from, sep)
    {
      hide Pager.Valid, NodeOk, Lt, ValuesSize, EntriesOk, CellsOk;
      ghost var t0 := T();
      Neighbours(t0, parent, j, thin);
      NodeDistinct(t0, parent, j, thin);
      var a, b := store.pages[into], store.pages[from];
      forall c | c in Kids(b) ensures c in info && c != into && c != parent {
        KidOf(t0, parent, j, from, thin, c);
      }
      store.Put(into, Internal(a.parent, b.rightmost, a.cells + [InternalEntry(sep, a.rightmost)] + b.cells));
      AdoptChildren(Kids(b), into);
      store.Log(into);
      var node := DropSeparator(store.pages[parent], into, from, sep, j);
      Write(parent, node);
    }

    /** The merge up to the freeing of the absorbed page. */
    method MergeInto(into: PageId, from: PageId, sep: Key, parent: PageId, ghost j: nat, ghost thin: PageId)
      requires MergeReady(into, from, sep, parent, j, thin)
      modifies store`pages, store`active, store`unlogged, this`info
      ensures store.Valid() && store.unlogged == {} && ValidBut(T(), parent) && SameParents(old(T()), T(), parent)
      ensures info.Keys == old(info).Keys - {from} && store.pages.Keys == old(store.pages).Keys
      ensures forall q :: q in store.pages && q !in old(info) ==> store.pages[q] == old(store.pages)[q]
      ensures Joined(old(store.pages), store.pages, into, from, sep)
      ensures Underfull(old(T()), into) && Underfull(old(T()), from) ==> MergingKeepsSizes(old(T()), T())
    {
      hide Pager.Valid, NodeOk, Lt, ValuesSize, EntriesOk, CellsOk, MergeLeaves, MergeInternals, MergedInfo, Joined, MergingKeepsSizes, KeepsSizes;
      ghost var t0 := T();
      Neighbours(t0, parent, j, thin);
      if store.pages[into].Leaf? {
        Unthin(t0, thin);
        LeavesMerged(t0, parent, j);
        if Underfull(t0, into) && Underfull(t0, from) {
          MergeLeafSizes(t0, parent, j);
          KeepsThenKeeps(t0, MergeLeaves(t0, parent, j), t0);
        }
        MergeLeafPages(into, from, sep, parent, j);
        info := MergeLeaves(t0, parent, j).info;
        assert T() == MergeLeaves(t0, parent, j);
      } else {
        InternalsMerged(t0, parent, j, thin);
        if Underfull(t0, into) && Underfull(t0, from) {
          MergeInternalSizes(t0, parent, j);
        }
        MergeInternalPages(into, from, sep, parent, j, thin);
        info := MergeInternals(t0, parent, j).info;
        assert T() == MergeInternals(t0, parent, j);
      }
    }

    /** The left sibling absorbs the page, or the page its right sibling if it has no left one. */
    method PickNeighbours(page: PageId, parent: PageId) returns (into: PageId, from: PageId, sep: Key, ghost j: nat)
      requires Ready() && ValidBut(T(), page) && page in info && page != root && parent == ParentOf(store.pages[page])
      ensures MergeReady(into, from, sep, parent, j, page)
      ensures (into == page || from == page) && into != from && parent in store.pages && store.pages[parent].Internal?
      ensures AreNeighbours(store.pages[parent], into, from)
    {
      hide Pager.Valid, NodeOk, Lt, ValuesSize, EntriesOk, CellsOk;
      ghost var t := T();
      ghost var slot := SlotOf(t, page, page);
      CellsFacts(t, parent, page);
      var n := store.pages[parent];
      var idx := FindAmongChildren(n, page);
      if idx > 0 {
        into, from, sep, j := Child(n, idx - 1), page, n.cells[idx - 1].key, idx - 1;
      } else {
        into, from, sep, j := page, Child(n, idx + 1), n.cells[idx].key, idx;
      }
      Neighbours(t, parent, j, page);
    }

    /** A page that no longer belongs to the tree is freed. */
    method FreeAbsorbed(page: PageId, ghost thin: PageId)
      requires store.Valid() && store.unlogged == {} && ValidBut(T(), thin)
      requires page in store.pages && HEADER_PAGE_ID < page && page !in store.free && page !in info
      modifies store`pages, store`total, store`firstFree, store`active, store`free, store`unlogged
      ensures store.Valid() && store.unlogged == {} && ValidBut(T(), thin) && SamePages(old(T()), T())
      ensures store.free == [page] + old(store.free) && store.total == old(store.total) && store.pages.Keys == old(store.pages).Keys
      ensures forall q :: q in store.pages && q != page ==> store.pages[q] == old(store.pages)[q]
    {
      hide Pager.Valid, NodeOk;
      ghost var t := T();
      TreePagesExist(t, thin);
      store.Free(page);
      ShapeFrame(t, T(), thin);
    }

    /** BTree::merge_with_sibling: the page and a sibling become one, the other page is freed. */
    method MergeWithSibling(page: PageId, parent: PageId) returns (ghost kept: PageId, ghost gone: PageId, ghost separator: Key)
      requires Ready() && ValidBut(T(), page) && page in info && page != root && parent == ParentOf(store.pages[page])
      modifies store`pages, store`total, store`firstFree, store`active, store`free, store`unlogged, this`info
      ensures Ready() && ValidBut(T(), parent) && Conserved(old(Owns()), Owns())
      ensures SameParents(old(T()), T(), parent)
      ensures gone in old(info) && info.Keys == old(info.Keys) - {gone} && store.free == [gone] + old(store.free)
      ensures (kept == page || gone == page) && Joined(old(store.pages), store.pages, kept, gone, separator)
      ensures old(store.pages[parent].Internal? && AreNeighbours(store.pages[parent], kept, gone))
      ensures Underfull(old(T()), kept) && Underfull(old(T()), gone) ==> MergingKeepsSizes(old(T()), T())
    {
      hide Pager.Valid, NodeOk, ValidBut, Conserved, MergingKeepsSizes, Joined, SameParents, SamePages, AreNeighbours, Underfull;
      ghost var t0, own0 := T(), Owns();
      var into, from, sep;
      ghost var j;
      into, from, sep, j := PickNeighbours(page, parent);
      kept, gone, separator := into, from, sep;
      MergeInto(into, from, sep, parent, j, page);
      ghost var t1 := T();
      FreeAbsorbed(from, parent);
      SameParentsThen(t0, t1, T(), parent);
      MergesThenSame(t0, t1, T());
      JoinedStays(t0.pages, t1.pages, store.pages, into, from, separator);
      ConservedFree(own0, from, Owns());
    }

    // ------------------------------------------------------------ removal: the way up

    /** A root without separators gives way to its only child. */
    method CollapseRoot()
      requires Ready() && ValidBut(T(), root) && store.pages[root].Internal? && store.pages[root].cells == []
      modifies store`pages, store`total, store`firstFree, store`active, store`free, store`unlogged, this`root, this`info
      ensures Valid() && Conserved(old(Owns()), Owns()) && info.Keys == old(info.Keys) - {old(root)}
      ensures root == old(store.pages[root].rightmost)
      ensures KeepsSizes(old(T()), T())
    {
      hide Pager.Valid, NodeOk, Conserved, Lt, ValuesSize, KeepsSizes;
      ghost var t0, own0 := T(), Owns();
      var page, only := root, store.pages[root].rightmost;
      CollapseRootKeeps(t0);
      AdoptChild(only, INVALID_PAGE);
      root := only;
      info := info - {page};
      ghost var t1 := T();
      assert t1 == RemoveSteps.CollapseRoot(t0);
      store.Free(page);
      ShapeFrame(t1, T(), INVALID_PAGE);
      ConservedFree(own0, page, Owns());
      CollapseSizes(t0, T());
    }

    /** BTree::handle_underflow: borrow or merge, and climb while the parent is underfull in turn. */
    method HandleUnderflow(page: PageId, path: seq<PageId>)
      requires Ready() && ValidBut(T(), page) && page in info && PathOk(T(), page, path)
      modifies store`pages, store`total, store`firstFree, store`active, store`free, store`unlogged, this`root, this`info
      ensures Valid() && Conserved(old(Owns()), Owns()) && info.Keys <= old(info.Keys)
      ensures page != old(root) ==>
                if exists donor, fromLeft :: CanDonate(old(store.pages), ParentOf(old(store.pages)[page]), page, donor, fromLeft)
                then exists donor, fromLeft, sep ::
                  Borrowed(old(store.pages), store.pages, ParentOf(old(store.pages)[page]), page, donor, sep, fromLeft)
                else info.Keys < old(info.Keys)
      ensures page == old(root) ==>
                if old(store.pages[page].Internal? && store.pages[page].cells == []) then page !in info else T() == old(T())
      ensures page == old(root) || Underfull(old(T()), page) ==> MergingKeepsSizes(old(T()), T())
      decreases |path|
    {
      hide Pager.Valid, NodeOk, Conserved, Lt, ValuesSize, CanDonate, Borrowed, Joined, KeepsSizes, MergingKeepsSizes;
      ghost var t0, own0 := T(), Owns();
      ConservedSelf(own0);
      if page == root {
        if store.pages[page].Internal? && store.pages[page].cells == [] {
          CollapseRoot();
          KeepsThenKeeps(t0, T(), T());
        } else {
          Unthin(T(), page);
          KeepsSelf(T());
        }
        return;
      }
      var parent, parentPath := path[|path| - 1], path[..|path| - 1];
      var redistributed := TryRedistribute(page, parent);
      if redistributed {
        if Underfull(t0, page) {
          KeepsThenKeeps(t0, T(), T());
        }
        return;
      }
      ghost var kept, gone, separator := MergeWithSibling(page, parent);
      assert info.Keys < t0.info.Keys;
      PathFrame(t0, T(), parent, parentPath, page);
      ghost var t1, own1 := T(), Owns();
      JoinedPages(t0.pages, T().pages, kept, gone, separator);
      NeitherDonates(t0, parent, page, kept, gone);
      if parent == root || IsUnderfull(store.pages[parent]) {
        HandleUnderflow(parent, parentPath);
        if Underfull(t0, page) {
          MergingThenMerging(t0, t1, T());
        }
        ConservedTrans(own0, own1, Owns());
      } else {
        Unthin(T(), parent);
      }
    }

    /** The entry with the key is erased. */
    static method EraseEntry(entries: seq<LeafEntry>, key: Key, ghost i: nat) returns (kept: seq<LeafEntry>)
      requires i < |entries| && forall j :: 0 <= j < |entries| ==> (entries[j].key == key <==> j == i)
      ensures kept == WithoutEntry(entries, i)
    {
      kept := [];
      for j := 0 to |entries|
        invariant kept == if j <= i then entries[..j] else entries[..i] + entries[i + 1..j]
      {
        if entries[j].key != key {
          kept := kept + [entries[j]];
        }
      }
    }

    method RemoveFromLeaf(leaf: PageId, key: Key, ghost i: nat)
      requires Valid() && leaf in info && info[leaf].level == 0
      requires i < |store.pages[leaf].entries| && store.pages[leaf].entries[i].key == key
      modifies store`pages, store`total, store`firstFree, store`active, store`free, store`unlogged, this`m
      ensures Valid() && m == old(m) - {key} && Conserved(old(Owns()), Owns())
      ensures SameParents(old(T()), T(), leaf)
      ensures KeepsSizes(old(T()), T())
    {
      hide Pager.Valid, NodeOk, Conserved, ValuesSize, Lt, KeepsSizes;
      ghost var t0, own0 := T(), Owns();
      var n := store.pages[leaf];
      LeafFacts(t0, leaf);
      OneEntryPerKey(n.entries, i);
      var kept := EraseEntry(n.entries, key, i);
      DropEntryKeeps(t0, leaf, i);
      DropSizes(t0, leaf, i);
      Write(leaf, n.(entries := kept));
      m := m - {key};
      assert T() == DropEntry(t0, leaf, i);
      ConservedSelf(own0);
      ConservedRewrite(own0, own0, Owns());
    }

    /** BTree::remove inside a transaction: the map loses the key, or it was not there and nothing changes. */
    method RemoveIn(key: Key) returns (outcome: Outcome)
      requires Valid()
      modifies store`pages, store`total, store`firstFree, store`active, store`free, store`unlogged, this
      ensures Valid() && Conserved(old(Owns()), Owns())
      ensures outcome == if key in old(m) then Done else KeyNotFound
      ensures m == old(m) - {key}
      ensures outcome.KeyNotFound? ==> T() == old(T()) && store.active == old(store.active)
      ensures outcome.KeyNotFound? ==> Owns() == old(Owns()) && store.firstFree == old(store.firstFree)
      ensures MergingKeepsSizes(old(T()), T())
    {
      hide Pager.Valid, NodeOk, Conserved, ValuesSize, Lt, EntriesSorted, KeepsSizes, MergingKeepsSizes;
      ghost var own0 := Owns();
      ConservedSelf(own0);
      var leaf, path := FindLeafPageWithPath(key);
      LeafFacts(T(), leaf);
      var i := FindInLeaf(store.pages[leaf].entries, key);
      if i == |store.pages[leaf].entries| {
        assert m - {key} == m;
        KeepsSelf(T());
        return KeyNotFound;
      }
      ghost var t0 := T();
      RemoveFromLeaf(leaf, key, i);
      PathFrame(t0, T(), leaf, path, INVALID_PAGE);
      ghost var t1, own1 := T(), Owns();
      KeepsThenKeeps(t0, t1, t1);
      if leaf != root && IsUnderfull(store.pages[leaf]) {
        Thin(T(), leaf);
        HandleUnderflow(leaf, path);
        KeepsThenKeeps(t0, t1, T());
        ConservedTrans(own0, own1, Owns());
      }
      return Done;
    }

    /** BTree::remove as a transaction of its own, which its log rebuilds as it does an insert. */
    method Remove(key: Key) returns (outcome: Outcome, ghost images: map<PageId, Page>)
      requires Valid()
      modifies this, store
      ensures Valid() && ConservedApart(old(Owns()), Owns())
      ensures outcome == if key in old(m) then Done else KeyNotFound
      ensures m == old(m) - {key}
      ensures Replays(old(store.pages), old(store.firstFree), images, store.pages, store.firstFree)
      ensures images == if outcome.Done? then store.committed else map[]
      ensures MergingKeepsSizes(old(T()), T())
    {
      hide Pager.Valid, NodeOk, Conserved, ConservedApart, MergingKeepsSizes;
      ghost var t0, own0 := T(), Owns();
      ConservedSelf(own0);
      store.Begin();
      outcome := RemoveIn(key);
      images := store.active;
      ghost var t1, own1 := T(), Owns();
      if outcome.Done? {
        CommitTree();
        TreePagesExist(t1, INVALID_PAGE);
      }
      CommitConserves(own0, own1, Owns());
      MergesThenSame(t0, t1, T());
    }

    // ------------------------------------------------------------ scans

    /** One leaf of a scan: its entries are judged one by one, until one ends the scan. */
    static method ScanLeaf(entries: seq<LeafEntry>, c: Criterion, acc: seq<LeafEntry>,
                           ghost m: map<Key, Bytes>, ghost lo: Bound, ghost hi: Bound)
      returns (result: seq<LeafEntry>, done: bool)
      requires EntriesOk(m, lo, hi, entries) && ListsBelow(acc, m, c, lo) && BoundLt(lo, hi) && !hi.NegInf?
      requires forall k :: k in m ==> LongEnough(c, k)
      ensures done ==> Lists(result, m, c)
      ensures !done ==> ListsBelow(result, m, c, hi)
    {
      hide Lt, ValuesSize, SmallEntry, Judge, Selects;
      OrderLaws();
      result := acc;
      for i := 0 to |entries|
        invariant Collected(result, m, c, lo, entries[..i])
        invariant forall j, l :: 0 <= j < |result| && i <= l < |entries| ==> Lt(result[j].key, entries[l].key)
      {
        var e := entries[i];
        JudgeMeans(c, e.key);
        assert entries[..i + 1] == entries[..i] + [e];
        match Judge(c, e.key) {
          case Skip =>
            CollectSkip(result, m, c, lo, entries[..i], e);
          case Stop =>
            CollectStop(result, m, c, lo, hi, entries, i);
            return result, true;
          case Take =>
            CollectTake(result, m, c, lo, entries[..i], e);
            result := result + [e];
        }
      }
      assert entries[..|entries|] == entries;
      CollectEnd(result, m, c, lo, hi, entries);
      done := false;
    }

    /** The walk along the leaf chain that every scan ends in. */
    method ScanFrom(start: PageId, c: Criterion) returns (result: seq<LeafEntry>)
      requires Valid() && start in info && info[start].level == 0
      requires forall k :: k in m ==> LongEnough(c, k)
      requires ListsBelow([], m, c, info[start].lo)
      ensures Lists(result, m, c)
    {
      hide Pager.Valid, Lt, ValuesSize, NodeOk, EntriesOk, ListsBelow;
      result := [];
      var current, done := start, false;
      ghost var seen: set<PageId> := {};
      ghost var bound := info[start].lo;
      while current != INVALID_PAGE && !done
        invariant done ==> Lists(result, m, c)
        invariant !done ==> ListsBelow(result, m, c, bound)
        invariant current == INVALID_PAGE ==> done || bound == PosInf
        invariant !done && current != INVALID_PAGE ==> current in info && info[current].level == 0 && info[current].lo == bound
        invariant seen <= info.Keys && forall q :: q in seen ==> !BoundLt(bound, info[q].hi)
        decreases info.Keys - seen, !done
      {
        var n := store.pages[current];
        LeafFacts(T(), current);
        ChainFacts(T(), current);
        var stop;
        result, stop := ScanLeaf(n.entries, c, result, m, info[current].lo, info[current].hi);
        if stop {
          done := true;
        } else {
          BoundsAhead(info, seen, bound, info[current].hi);
          bound := info[current].hi;
          seen := seen + {current};
          current := n.next;
        }
      }
    }

    /** The descent along leftmost children (scan_all, find_leftmost_leaf). */
    method FindLeftmostLeaf() returns (leaf: PageId)
      requires Valid()
      ensures leaf in info && info[leaf].level == 0 && info[leaf].lo == NegInf
    {
      hide Pager.Valid, Lt, ValuesSize, NodeOk;
      leaf := root;
      while store.pages[leaf].Internal?
        invariant leaf in info && info[leaf].lo == NegInf
        decreases info[leaf].level
      {
        var n := store.pages[leaf];
        SlotFacts(T(), leaf, INVALID_PAGE, 0);
        leaf := if n.cells == [] then n.rightmost else n.cells[0].child;
      }
    }

    method ScanAll() returns (result: seq<LeafEntry>)
      requires Valid()
      ensures Lists(result, m, All)
    {
      var leaf := FindLeftmostLeaf();
      result := ScanFrom(leaf, All);
    }

    method RangeScan(start: Key, end: Key) returns (result: seq<LeafEntry>)
      requires Valid()
      ensures Lists(result, m, Range(start, end))
    {
      hide Pager.Valid, Lt, ValuesSize, NodeOk;
      var leaf := FindLeafPage(start);
      ghost var c := Range(start, end);
      StartsBelow(m, c, start, info[leaf].lo);
      result := ScanFrom(leaf, Range(start, end));
    }

    method PrefixScan(prefix: Key) returns (result: seq<LeafEntry>)
      requires Valid()
      ensures Lists(result, m, Prefix(prefix))
    {
      hide Pager.Valid, Lt, ValuesSize, NodeOk;
      var leaf := FindLeafPage(prefix);
      StartsBelow(m, Prefix(prefix), prefix, info[leaf].lo);
      result := ScanFrom(leaf, Prefix(prefix));
    }

    /** Without any bound this is a prefix scan; with one, only the element after the prefix is compared. */
    method BoundedScan(prefix: Key, lo: Option<Value>, loInclusive: bool, hi: Option<Value>, hiInclusive: bool)
      returns (result: seq<LeafEntry>)
      requires Valid()
      requires forall k :: k in m && HasPrefix(k, prefix) ==> |k| > |prefix|
      ensures Lists(result, m, if lo.None? && hi.None? then Prefix(prefix)
                               else Bounded(prefix, lo, loInclusive, hi, hiInclusive))
    {
      hide Pager.Valid, Lt, ValuesSize, NodeOk;
      if lo.None? && hi.None? {
        result := PrefixScan(prefix);
        return;
      }
      var c := Bounded(prefix, lo, loInclusive, hi, hiInclusive);
      var leaf;
      if lo.Some? {
        leaf := FindLeafPage(prefix + [lo.value]);
        StartsBelow(m, c, prefix + [lo.value], info[leaf].lo);
      } else if prefix != [] {
        leaf := FindLeafPage(prefix);
        StartsBelow(m, c, prefix, info[leaf].lo);
      } else {
        leaf := FindLeftmostLeaf();
      }
      result := ScanFrom(leaf, c);
    }
  }
}
