/** The page rewrites of an insertion, one lemma each: every step keeps the tree's shape
    (src/btree/btree.cpp:134-330). */
module InsertSteps {
  import opened Keys
  import opened Pages
  import opened TreeShape

  /** The map with the parent field of each page of `kids` set (the loops of split_internal and
      merge_with_sibling). */
  function Reparent(pages: map<PageId, Page>, kids: seq<PageId>, parent: PageId): map<PageId, Page> {
    map p | p in pages :: if p in kids then WithParent(pages[p], parent) else pages[p]
  }

  /** One turn of such a loop. */
  lemma ReparentStep(pages: map<PageId, Page>, kids: seq<PageId>, i: nat, parent: PageId)
    requires i < |kids| && kids[i] in pages
    ensures Reparent(pages, kids[..i + 1], parent)
         == Reparent(pages, kids[..i], parent)[kids[i] := WithParent(Reparent(pages, kids[..i], parent)[kids[i]], parent)]
  {
    var c := kids[i];
    assert kids[..i + 1] == kids[..i] + [c];
  }

  // ------------------------------------------------------------ split of a leaf

  /** Leaf p keeps the first mid entries; the new leaf r takes the rest and p's place in the chain. */
  ghost function SplitLeaf(t: Tree, p: PageId, r: PageId, mid: nat): Tree
    requires p in t.info && p in t.pages && t.pages[p].Leaf? && mid < |t.pages[p].entries|
  {
    var n, i := t.pages[p], t.info[p];
    var sep := n.entries[mid].key;
    t.(pages := t.pages[p := Leaf(n.parent, r, n.entries[..mid])][r := Leaf(n.parent, n.next, n.entries[mid..])],
       info := t.info[p := i.(hi := At(sep))][r := Info(0, At(sep), i.hi, i.cover, false)])
  }

  lemma HalvesOk(m: map<Key, Bytes>, lo: Bound, hi: Bound, entries: seq<LeafEntry>, mid: nat)
    requires EntriesOk(m, lo, hi, entries) && 0 < mid < |entries|
    ensures BoundLt(lo, At(entries[mid].key)) && BoundLt(At(entries[mid].key), hi) && SmallKey(entries[mid].key)
    ensures EntriesOk(m, lo, At(entries[mid].key), entries[..mid])
    ensures EntriesOk(m, At(entries[mid].key), hi, entries[mid..])
  {
    hide Lt, ValuesSize;
    OrderLaws();
    var sep := entries[mid].key;
    assert In(entries[0].key, lo, hi) && Lt(entries[0].key, sep);
    forall k | k in m && In(k, lo, At(sep)) ensures HasKey(entries[..mid], k) {
      assert In(k, lo, hi);
      var i :| 0 <= i < |entries| && entries[i].key == k;
      assert entries[..mid][i].key == k;
    }
    forall k | k in m && In(k, At(sep), hi) ensures HasKey(entries[mid..], k) {
      assert In(k, lo, hi);
      var i :| 0 <= i < |entries| && entries[i].key == k;
      assert entries[mid..][i - mid].key == k;
    }
  }

  lemma SplitLeafBodies(t: Tree, p: PageId, r: PageId, mid: nat, thin: PageId)
    requires Shaped(t, thin)
    requires p in t.info && t.info[p].level == 0 && Settled(t.info[p]) && 0 < mid < |t.pages[p].entries|
    requires r !in t.info && 0 < r
    ensures var t' := SplitLeaf(t, p, r, mid);
      && Pending(t', p, t.pages[p].entries[mid].key, r)
      && RankOk(t', p) && RankOk(t', r) && BodyOk(t', p, thin) && BodyOk(t', r, thin)
  {
    hide Lt, ValuesSize, EntriesOk, InternalOk;
    assert NodeOk(t, p, thin);
    HalvesOk(t.m, t.info[p].lo, t.info[p].hi, t.pages[p].entries, mid);
  }

  lemma SplitLeafKeeps(t: Tree, p: PageId, r: PageId, mid: nat, thin: PageId)
    requires Shaped(t, thin)
    requires p in t.info && t.info[p].level == 0 && Settled(t.info[p]) && 0 < mid < |t.pages[p].entries|
    requires r !in t.info && 0 < r
    ensures Pending(SplitLeaf(t, p, r, mid), p, t.pages[p].entries[mid].key, r)
    ensures Shaped(SplitLeaf(t, p, r, mid), thin)
  {
    hide Lt, ValuesSize, InternalOk, LeafOk, BoundLt;
    var t' := SplitLeaf(t, p, r, mid);
    SplitLeafBodies(t, p, r, mid, thin);
    forall q | q in t'.info ensures NodeOk(t', q, thin) {
      if q != r {
        assert NodeOk(t, q, thin);
        if t.info[q].level > 0 {
          InternalFrame(t, t', q, thin, thin);
        } else if q != p {
          LeafFrame(t, t', q, thin, thin);
        }
        if q != t.root && t.info[q].listed {
          LinkFrame(t, t', q);
        }
      }
    }
  }

  // ------------------------------------------------------------ split of an internal node

  ghost function SplitInternal(t: Tree, p: PageId, r: PageId, mid: nat): Tree
    requires p in t.info && p in t.pages && t.pages[p].Internal? && mid < |t.pages[p].cells|
  {
    var n, i := t.pages[p], t.info[p];
    var sep := n.cells[mid].key;
    var right := Internal(n.parent, n.rightmost, n.cells[mid + 1..]);
    t.(pages := Reparent(t.pages[p := Internal(n.parent, n.cells[mid].child, n.cells[..mid])][r := right], Kids(right), r),
       info := t.info[p := i.(hi := At(sep))][r := Info(i.level, At(sep), i.hi, i.cover, false)])
  }

  /** The children of a node are distinct, and belong to no other node. */
  lemma ChildrenDistinct(t: Tree, p: PageId, thin: PageId, i: nat, j: nat)
    requires Shaped(t, thin) && p in t.info && t.info[p].level > 0
    requires i <= |t.pages[p].cells| && j <= |t.pages[p].cells|
    requires Child(t.pages[p], i) == Child(t.pages[p], j)
    ensures i == j
  {
    hide Lt, ValuesSize;
    OrderLaws();
    SlotFacts(t, p, thin, i);
    SlotFacts(t, p, thin, j);
    CellsFacts(t, p, thin);
  }

  /** The children that move to r, and where they were. */
  lemma MovedKids(t: Tree, p: PageId, mid: nat, right: Page, c: PageId, thin: PageId)
    requires Shaped(t, thin) && p in t.info && t.info[p].level > 0
    requires mid < |t.pages[p].cells|
    requires right.Internal? && right.rightmost == t.pages[p].rightmost
    requires right.cells == t.pages[p].cells[mid + 1..]
    ensures forall s: nat :: s <= |right.cells| ==> Child(right, s) == Child(t.pages[p], mid + 1 + s)
    ensures forall s: nat :: s <= mid ==> Child(t.pages[p], s) !in Kids(right)
    ensures forall s: nat :: mid < s <= |t.pages[p].cells| ==> Child(t.pages[p], s) in Kids(right)
    ensures c in Kids(right) ==>
              c in t.info && t.info[c].level + 1 == t.info[p].level && ParentOf(t.pages[c]) == p && IsChild(right, c)
  {
    hide Lt, ValuesSize;
    var n := t.pages[p];
    assert NodeOk(t, p, thin);
    if c in Kids(right) {
      var s :| 0 <= s < |Kids(right)| && Kids(right)[s] == c;
      assert Child(n, mid + 1 + s) == c == Child(right, s);
      assert SlotOk(t, p, mid + 1 + s);
    }
    forall s: nat | mid < s <= |n.cells| ensures Child(n, s) in Kids(right) {
      assert Kids(right)[s - mid - 1] == Child(n, s);
    }
    forall s: nat | s <= mid ensures Child(n, s) !in Kids(right) {
      if Child(n, s) in Kids(right) {
        var u :| 0 <= u < |Kids(right)| && Kids(right)[u] == Child(n, s);
        assert Child(n, mid + 1 + u) == Child(n, s);
        ChildrenDistinct(t, p, thin, mid + 1 + u, s);
      }
    }
  }

  lemma SplitCellsOk(lo: Bound, hi: Bound, cells: seq<InternalEntry>, mid: nat)
    requires CellsOk(lo, hi, cells) && mid < |cells|
    ensures CellsOk(lo, At(cells[mid].key), cells[..mid])
    ensures CellsOk(At(cells[mid].key), hi, cells[mid + 1..])
  {
    hide Lt, ValuesSize;
    OrderLaws();
  }

  lemma SplitSlot(t: Tree, p: PageId, r: PageId, mid: nat, thin: PageId, s: nat)
    requires Shaped(t, thin)
    requires p in t.info && t.info[p].level > 0 && Settled(t.info[p])
    requires 1 <= mid <= |t.pages[p].cells| - 2 && s <= |t.pages[p].cells|
    requires r !in t.info && 0 < r
    ensures var t', n := SplitInternal(t, p, r, mid), t.pages[p];
      && t'.pages[p] == Internal(n.parent, n.cells[mid].child, n.cells[..mid])
      && t'.pages[r] == Internal(n.parent, n.rightmost, n.cells[mid + 1..])
      && if s <= mid then SlotOk(t', p, s) else SlotOk(t', r, s - mid - 1)
  {
    hide Lt, ValuesSize, BodyOk, BoundLt;
    var t' := SplitInternal(t, p, r, mid);
    var n := t.pages[p];
    var right := Internal(n.parent, n.rightmost, n.cells[mid + 1..]);
    MovedKids(t, p, mid, right, p, thin);
    MovedKids(t, p, mid, right, r, thin);
    assert t'.pages[p] == Internal(n.parent, n.cells[mid].child, n.cells[..mid]);
    assert t'.pages[r] == right;
    SlotAt(t, p, thin, s);
    if s <= mid {
      assert Child(t'.pages[p], s) == Child(n, s);
    } else {
      assert Child(right, s - mid - 1) == Child(n, s);
    }
  }

  lemma SplitInternalBodies(t: Tree, p: PageId, r: PageId, mid: nat, thin: PageId)
    requires Shaped(t, thin)
    requires p in t.info && t.info[p].level > 0 && Settled(t.info[p])
    requires 1 <= mid <= |t.pages[p].cells| - 2
    requires r !in t.info && 0 < r
    ensures BodyOk(SplitInternal(t, p, r, mid), p, thin)
    ensures BodyOk(SplitInternal(t, p, r, mid), r, thin)
  {
    hide Lt, ValuesSize, SlotOk;
    var t' := SplitInternal(t, p, r, mid);
    var n := t.pages[p];
    assert NodeOk(t, p, thin);
    SplitCellsOk(t.info[p].lo, t.info[p].hi, n.cells, mid);
    SplitSlot(t, p, r, mid, thin, 0);
    forall s: nat | s <= mid ensures SlotOk(t', p, s) {
      SplitSlot(t, p, r, mid, thin, s);
    }
    forall s: nat | s <= |n.cells| - mid - 1 ensures SlotOk(t', r, s) {
      SplitSlot(t, p, r, mid, thin, mid + 1 + s);
    }
  }

  lemma SplitInternalLink(t: Tree, p: PageId, r: PageId, mid: nat, thin: PageId, q: PageId)
    requires Shaped(t, thin)
    requires p in t.info && t.info[p].level > 0 && Settled(t.info[p])
    requires 1 <= mid <= |t.pages[p].cells| - 2
    requires r !in t.info && 0 < r && q in t.info
    ensures Linked(SplitInternal(t, p, r, mid), q)
  {
    hide Lt, ValuesSize, BodyOk, BoundLt;
    var t' := SplitInternal(t, p, r, mid);
    var n := t.pages[p];
    var right := Internal(n.parent, n.rightmost, n.cells[mid + 1..]);
    assert NodeOk(t, q, thin);
    MovedKids(t, p, mid, right, p, thin);
    MovedKids(t, p, mid, right, r, thin);
    MovedKids(t, p, mid, right, q, thin);
    if q != t.root && t.info[q].listed && q !in Kids(right) {
      var up := ParentOf(t.pages[q]);
      var s: nat :| s <= |t.pages[up].cells| && Child(t.pages[up], s) == q;
      assert Child(t'.pages[up], s) == q;
    }
  }

  lemma SplitInternalKeeps(t: Tree, p: PageId, r: PageId, mid: nat, thin: PageId)
    requires Shaped(t, thin)
    requires p in t.info && t.info[p].level > 0 && Settled(t.info[p])
    requires 1 <= mid <= |t.pages[p].cells| - 2
    requires r !in t.info && 0 < r
    ensures Pending(SplitInternal(t, p, r, mid), p, t.pages[p].cells[mid].key, r)
    ensures Shaped(SplitInternal(t, p, r, mid), thin)
  {
    hide Lt, ValuesSize;
    var t' := SplitInternal(t, p, r, mid);
    var n := t.pages[p];
    var right := Internal(n.parent, n.rightmost, n.cells[mid + 1..]);
    assert NodeOk(t, p, thin) && NodeOk(t, t.root, thin);
    MovedKids(t, p, mid, right, t.root, thin);
    SplitInternalBodies(t, p, r, mid, thin);
    forall q | q in t'.info ensures NodeOk(t', q, thin) {
      if q != r {
        SplitInternalLink(t, p, r, mid, thin, q);
        assert NodeOk(t, q, thin);
        if q != p {
          MovedKids(t, p, mid, right, q, thin);
          if t.info[q].level == 0 {
            LeafFrame(t, t', q, thin, thin);
          } else {
            forall s: nat | s <= |t.pages[q].cells| && SlotOk(t, q, s)
              ensures SameChild(t, t', Child(t.pages[q], s))
            {
              MovedKids(t, p, mid, right, Child(t.pages[q], s), thin);
            }
            InternalFrame(t, t', q, thin, thin);
          }
        }
      }
    }
  }

  // ------------------------------------------------------------ a new root above a split root

  ghost function GrowRoot(t: Tree, left: PageId, sep: Key, right: PageId, top: PageId): Tree
    requires left in t.info && right in t.info && left in t.pages && right in t.pages
  {
    var level := t.info[left].level;
    t.(pages := t.pages[top := Internal(INVALID_PAGE, right, [InternalEntry(sep, left)])]
                       [left := WithParent(t.pages[left], top)][right := WithParent(t.pages[right], top)],
       root := top,
       info := t.info[left := t.info[left].(cover := At(sep))][right := t.info[right].(listed := true)]
                     [top := Info(level + 1, NegInf, PosInf, PosInf, true)])
  }

  lemma GrowRootTop(t: Tree, left: PageId, sep: Key, right: PageId, top: PageId)
    requires Shaped(t, INVALID_PAGE) && Pending(t, left, sep, right)
    requires left == t.root && top !in t.info && 0 < top
    ensures NodeOk(GrowRoot(t, left, sep, right, top), top, INVALID_PAGE)
  {
    hide Lt, ValuesSize, BodyOk;
    var t' := GrowRoot(t, left, sep, right, top);
    assert NodeOk(t, left, INVALID_PAGE) && NodeOk(t, right, INVALID_PAGE);
    assert Child(t'.pages[top], 0) == left && Child(t'.pages[top], 1) == right;
    assert SlotOk(t', top, 0) && SlotOk(t', top, 1);
    assert InternalOk(t', top, INVALID_PAGE);
    BodyIsInternalOk(t', top, INVALID_PAGE);
  }

  lemma GrowRootKeeps(t: Tree, left: PageId, sep: Key, right: PageId, top: PageId)
    requires Shaped(t, INVALID_PAGE) && Pending(t, left, sep, right)
    requires left == t.root && top !in t.info && 0 < top
    ensures Shaped(GrowRoot(t, left, sep, right, top), INVALID_PAGE)
  {
    hide Lt, ValuesSize, InternalOk, LeafOk;
    var t' := GrowRoot(t, left, sep, right, top);
    GrowRootTop(t, left, sep, right, top);
    assert Child(t'.pages[top], 0) == left && Child(t'.pages[top], 1) == right;
    forall q | q in t'.info ensures NodeOk(t', q, INVALID_PAGE) {
      if q != top {
        assert NodeOk(t, q, INVALID_PAGE);
        if t.info[q].level == 0 {
          LeafFrame(t, t', q, INVALID_PAGE, INVALID_PAGE);
        } else {
          InternalFrame(t, t', q, INVALID_PAGE, INVALID_PAGE);
        }
        if q != left && q != right && t.info[q].listed {
          var up := ParentOf(t.pages[q]);
          var s: nat :| s <= |t.pages[up].cells| && Child(t.pages[up], s) == q;
          assert Child(t'.pages[up], s) == q;
        }
      }
    }
  }

  // ------------------------------------------------------------ the right half enters the parent

  /** The node with (sep, left) put in at position i, and the slot after it pointing to `right`. */
  function LinkedNode(n: Page, i: nat, left: PageId, sep: Key, right: PageId): Page
    requires n.Internal? && i <= |n.cells|
  {
    if i < |n.cells| then
      n.(cells := n.cells[..i] + [InternalEntry(sep, left), n.cells[i].(child := right)] + n.cells[i + 1..])
    else
      n.(cells := n.cells + [InternalEntry(sep, left)], rightmost := right)
  }

  ghost function LinkRight(t: Tree, left: PageId, sep: Key, right: PageId, p: PageId, i: nat): Tree
    requires left in t.info && right in t.info && right in t.pages
    requires p in t.pages && t.pages[p].Internal? && i <= |t.pages[p].cells|
  {
    t.(pages := t.pages[p := LinkedNode(t.pages[p], i, left, sep, right)][right := WithParent(t.pages[right], p)],
       info := t.info[left := t.info[left].(cover := At(sep))][right := t.info[right].(listed := true)])
  }

  /** What the slots of the extended node hold. */
  lemma LinkedSlots(n: Page, i: nat, left: PageId, sep: Key, right: PageId)
    requires n.Internal? && i <= |n.cells| && Child(n, i) == left
    ensures var n' := LinkedNode(n, i, left, sep, right);
      && n'.Internal? && n'.parent == n.parent && |n'.cells| == |n.cells| + 1
      && (forall s: nat :: s <= |n'.cells| ==>
            Child(n', s) == if s <= i then Child(n, s) else if s == i + 1 then right else Child(n, s - 1))
      && (forall s: nat :: s < |n'.cells| ==>
            n'.cells[s].key == if s < i then n.cells[s].key else if s == i then sep else n.cells[s - 1].key)
  {
    hide Lt, ValuesSize;
  }

  lemma LinkedCellsOk(n: Page, lo: Bound, hi: Bound, i: nat, left: PageId, sep: Key, right: PageId)
    requires n.Internal? && i <= |n.cells| && Child(n, i) == left && SmallKey(sep)
    requires CellsOk(lo, hi, n.cells)
    requires BoundLt(SlotLo(n, lo, i), At(sep)) && BoundLt(At(sep), SlotHi(n, hi, i))
    ensures CellsOk(lo, hi, LinkedNode(n, i, left, sep, right).cells)
  {
    hide Lt, ValuesSize;
    LinkedSlots(n, i, left, sep, right);
    OrderLaws();
  }

  lemma LinkRightSlot(t: Tree, left: PageId, sep: Key, right: PageId, p: PageId, i: nat, thin: PageId, s: nat)
    requires Shaped(t, thin) && Pending(t, left, sep, right)
    requires p in t.info && t.info[p].level > 0 && i <= |t.pages[p].cells|
    requires Child(t.pages[p], i) == left
    requires LinkRight(t, left, sep, right, p, i).pages[p] == LinkedNode(t.pages[p], i, left, sep, right)
    requires s <= |LinkedNode(t.pages[p], i, left, sep, right).cells|
    ensures SlotOk(LinkRight(t, left, sep, right, p, i), p, s)
  {
    hide Lt, ValuesSize, BodyOk, BoundLt;
    var n := t.pages[p];
    SlotAt(t, p, thin, i);
    LinkedSlots(n, i, left, sep, right);
    if s != i + 1 {
      var u := if s <= i then s else s - 1;
      SlotAt(t, p, thin, u);
      if Child(n, u) == left {
        ChildrenDistinct(t, p, thin, u, i);
      }
    }
  }

  lemma LinkRightBody(t: Tree, left: PageId, sep: Key, right: PageId, p: PageId, i: nat, thin: PageId)
    requires Shaped(t, thin) && Pending(t, left, sep, right)
    requires p in t.info && t.info[p].level > 0 && i <= |t.pages[p].cells|
    requires Child(t.pages[p], i) == left
    ensures forall any: PageId :: BodyOk(LinkRight(t, left, sep, right, p, i), p, any)
  {
    hide Lt, ValuesSize, SlotOk;
    var t' := LinkRight(t, left, sep, right, p, i);
    var n := t.pages[p];
    assert NodeOk(t, p, thin) && NodeOk(t, left, thin) && NodeOk(t, right, thin);
    SlotFacts(t, p, thin, i);
    LinkedCellsOk(n, t.info[p].lo, t.info[p].hi, i, left, sep, right);
    assert t'.pages[p] == LinkedNode(n, i, left, sep, right);
    forall s: nat | s <= |t'.pages[p].cells| ensures SlotOk(t', p, s) {
      LinkRightSlot(t, left, sep, right, p, i, thin, s);
    }
  }

  lemma LinkRightLink(t: Tree, left: PageId, sep: Key, right: PageId, p: PageId, i: nat, thin: PageId, q: PageId)
    requires Shaped(t, thin) && Pending(t, left, sep, right) && q in t.info
    requires p in t.info && t.info[p].level > 0 && i <= |t.pages[p].cells|
    requires Child(t.pages[p], i) == left
    ensures Linked(LinkRight(t, left, sep, right, p, i), q)
  {
    hide Lt, ValuesSize, BodyOk, BoundLt;
    var t' := LinkRight(t, left, sep, right, p, i);
    var n := t.pages[p];
    assert NodeOk(t, q, thin);
    SlotAt(t, p, thin, i);
    LinkedSlots(n, i, left, sep, right);
    if q == right {
      assert t'.pages[p] == LinkedNode(n, i, left, sep, right);
      assert Child(t'.pages[p], i + 1) == right;
    } else if q != t.root && t.info[q].listed {
      if ParentOf(t.pages[q]) == p {
        var s: nat :| s <= |n.cells| && Child(n, s) == q;
        assert Child(t'.pages[p], if s <= i then s else s + 1) == q;
      } else {
        LinkFrame(t, t', q);
      }
    }
  }

  lemma LinkRightKeeps(t: Tree, left: PageId, sep: Key, right: PageId, p: PageId, i: nat, thin: PageId)
    requires Shaped(t, thin) && Pending(t, left, sep, right)
    requires p in t.info && t.info[p].level > 0 && i <= |t.pages[p].cells|
    requires Child(t.pages[p], i) == left
    ensures Shaped(LinkRight(t, left, sep, right, p, i), if thin == p then INVALID_PAGE else thin)
  {
    hide Lt, ValuesSize, InternalOk, LeafOk;
    var t' := LinkRight(t, left, sep, right, p, i);
    SlotFacts(t, p, thin, i);
    assert NodeOk(t, p, thin) && NodeOk(t, left, thin);
    LinkRightBody(t, left, sep, right, p, i, thin);
    var thin' := if thin == p then INVALID_PAGE else thin;
    forall q | q in t'.info ensures NodeOk(t', q, thin') {
      assert NodeOk(t, q, thin);
      LinkRightLink(t, left, sep, right, p, i, thin, q);
      if q != p {
        if t.info[q].level == 0 {
          LeafFrame(t, t', q, thin, thin');
        } else {
          InternalFrame(t, t', q, thin, thin');
        }
      }
    }
  }

  // ------------------------------------------------------------ one entry more, one entry less

  /** Entry e put in at position i. */
  function WithEntry(entries: seq<LeafEntry>, i: nat, e: LeafEntry): seq<LeafEntry>
    requires i <= |entries|
  {
    entries[..i] + [e] + entries[i..]
  }

  /** Position i is where key k belongs. */
  predicate SortedPlace(entries: seq<LeafEntry>, i: nat, k: Key) {
    && i <= |entries|
    && (forall j :: 0 <= j < i ==> Lt(entries[j].key, k))
    && (forall j :: i <= j < |entries| ==> Lt(k, entries[j].key))
  }

  ghost function AddEntry(t: Tree, p: PageId, i: nat, e: LeafEntry): Tree
    requires p in t.pages && t.pages[p].Leaf? && i <= |t.pages[p].entries|
  {
    t.(pages := t.pages[p := t.pages[p].(entries := WithEntry(t.pages[p].entries, i, e))], m := t.m[e.key := e.value])
  }

  lemma WithEntrySlots(entries: seq<LeafEntry>, i: nat, e: LeafEntry)
    requires i <= |entries|
    ensures var entries' := WithEntry(entries, i, e);
      && |entries'| == |entries| + 1
      && forall j :: 0 <= j <= |entries| ==> entries'[j] == if j < i then entries[j] else if j == i then e else entries[j - 1]
  {
  }

  lemma WithEntrySorted(entries: seq<LeafEntry>, i: nat, e: LeafEntry)
    requires EntriesSorted(entries) && SortedPlace(entries, i, e.key)
    ensures EntriesSorted(WithEntry(entries, i, e))
    ensures forall j :: 0 <= j < |entries| ==> entries[j].key != e.key
  {
    hide Lt;
    LtDistinct();
    WithEntrySlots(entries, i, e);
  }

  lemma WithEntryOk(m: map<Key, Bytes>, lo: Bound, hi: Bound, entries: seq<LeafEntry>, i: nat, e: LeafEntry)
    requires EntriesOk(m, lo, hi, entries) && SortedPlace(entries, i, e.key)
    requires SmallEntry(e) && In(e.key, lo, hi)
    ensures EntriesOk(m[e.key := e.value], lo, hi, WithEntry(entries, i, e))
  {
    hide Lt, ValuesSize, In, SmallEntry, EntriesSorted;
    var entries' := WithEntry(entries, i, e);
    WithEntrySorted(entries, i, e);
    WithEntrySlots(entries, i, e);
    forall k | k in m[e.key := e.value] && In(k, lo, hi) ensures HasKey(entries', k) {
      if k == e.key {
        assert entries'[i].key == k;
      } else {
        var j :| 0 <= j < |entries| && entries[j].key == k;
        assert entries'[if j < i then j else j + 1].key == k;
      }
    }
  }

  /** A leaf does not notice a change of the map outside its interval. */
  lemma OtherEntriesOk(m: map<Key, Bytes>, m': map<Key, Bytes>, k: Key, lo: Bound, hi: Bound, entries: seq<LeafEntry>)
    requires EntriesOk(m, lo, hi, entries) && !In(k, lo, hi)
    requires forall j :: j != k ==> (j in m <==> j in m') && (j in m ==> m[j] == m'[j])
    ensures EntriesOk(m', lo, hi, entries)
  {
    hide Lt, ValuesSize;
  }

  /** Rewriting the entries of one leaf for a change of the map at one of its keys. */
  lemma RewriteLeafKeeps(t: Tree, t': Tree, p: PageId, k: Key)
    requires Valid(t) && p in t.info && t.info[p].level == 0 && In(k, t.info[p].lo, t.info[p].hi)
    requires t'.root == t.root && t'.info == t.info
    requires p in t'.pages && t'.pages[p].Leaf? && t'.pages == t.pages[p := t.pages[p].(entries := t'.pages[p].entries)]
    requires forall j :: j != k ==> (j in t.m <==> j in t'.m) && (j in t.m ==> t.m[j] == t'.m[j])
    requires EntriesOk(t'.m, t.info[p].lo, t.info[p].hi, t'.pages[p].entries)
    ensures Valid(t')
  {
    hide Lt, ValuesSize, EntriesOk, CellsOk;
    forall q | q in t'.info ensures NodeOk(t', q, INVALID_PAGE) {
      assert NodeOk(t, q, INVALID_PAGE) && NodeOk(t, p, INVALID_PAGE);
      if t.info[q].level > 0 {
        InternalFrame(t, t', q, INVALID_PAGE, INVALID_PAGE);
      } else if q != p {
        if In(k, t.info[q].lo, t.info[q].hi) {
          OnePage(t, p, q, k, INVALID_PAGE);
        }
        OtherEntriesOk(t.m, t'.m, k, t.info[q].lo, t.info[q].hi, t.pages[q].entries);
      }
      if q != t.root {
        LinkFrame(t, t', q);
      }
    }
  }

  lemma AddEntryKeeps(t: Tree, p: PageId, i: nat, e: LeafEntry)
    requires Valid(t) && p in t.info && t.info[p].level == 0 && In(e.key, t.info[p].lo, t.info[p].hi)
    requires SortedPlace(t.pages[p].entries, i, e.key) && SmallEntry(e)
    ensures Valid(AddEntry(t, p, i, e))
  {
    hide Lt, ValuesSize, EntriesOk;
    assert NodeOk(t, p, INVALID_PAGE);
    WithEntryOk(t.m, t.info[p].lo, t.info[p].hi, t.pages[p].entries, i, e);
    RewriteLeafKeeps(t, AddEntry(t, p, i, e), p, e.key);
  }
}
