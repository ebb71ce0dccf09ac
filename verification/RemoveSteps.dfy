/** The page rewrites of a deletion (src/btree/btree.cpp:552-944): every step keeps the tree's shape. */
module RemoveSteps {
  import opened Keys
  import opened Pages
  import opened TreeShape
  import opened InsertSteps

  // ------------------------------------------------------------ one entry less

  function WithoutEntry(entries: seq<LeafEntry>, i: nat): seq<LeafEntry>
    requires i < |entries|
  {
    entries[..i] + entries[i + 1..]
  }

  ghost function DropEntry(t: Tree, p: PageId, i: nat): Tree
    requires p in t.pages && t.pages[p].Leaf? && i < |t.pages[p].entries|
  {
    t.(pages := t.pages[p := t.pages[p].(entries := WithoutEntry(t.pages[p].entries, i))],
       m := t.m - {t.pages[p].entries[i].key})
  }

  lemma WithoutEntrySorted(entries: seq<LeafEntry>, i: nat)
    requires EntriesSorted(entries) && i < |entries|
    ensures var entries' := WithoutEntry(entries, i);
      && |entries'| == |entries| - 1 && EntriesSorted(entries')
      && forall j :: 0 <= j < |entries'| ==>
           entries'[j] == entries[if j < i then j else j + 1] && entries'[j].key != entries[i].key
  {
    hide Lt;
    LtDistinct();
  }

  lemma WithoutEntryOk(m: map<Key, Bytes>, lo: Bound, hi: Bound, entries: seq<LeafEntry>, i: nat)
    requires EntriesOk(m, lo, hi, entries) && i < |entries|
    ensures EntriesOk(m - {entries[i].key}, lo, hi, WithoutEntry(entries, i))
  {
    hide Lt, ValuesSize, In, SmallEntry, WithoutEntry, EntriesSorted;
    var entries' := WithoutEntry(entries, i);
    WithoutEntrySorted(entries, i);
    forall k | k in m - {entries[i].key} && In(k, lo, hi) ensures HasKey(entries', k) {
      var j :| 0 <= j < |entries| && entries[j].key == k;
      assert entries'[if j < i then j else j - 1].key == k;
    }
  }

  lemma DropEntryKeeps(t: Tree, p: PageId, i: nat)
    requires Valid(t) && p in t.info && t.info[p].level == 0 && i < |t.pages[p].entries|
    ensures Valid(DropEntry(t, p, i))
  {
    hide Lt, ValuesSize;
    assert NodeOk(t, p, INVALID_PAGE);
    WithoutEntryOk(t.m, t.info[p].lo, t.info[p].hi, t.pages[p].entries, i);
    RewriteLeafKeeps(t, DropEntry(t, p, i), p, t.pages[p].entries[i].key);
  }

  // ------------------------------------------------------------ a separator leaves the parent

  /** The node without separator j, the child left of it taking over the slot right of it. */
  function UnlinkedNode(n: Page, j: nat, into: PageId): Page
    requires n.Internal? && j < |n.cells|
  {
    if j + 1 < |n.cells| then
      n.(cells := n.cells[..j] + [n.cells[j + 1].(child := into)] + n.cells[j + 2..])
    else
      n.(cells := n.cells[..j], rightmost := into)
  }

  lemma UnlinkedSlots(n: Page, j: nat, into: PageId)
    requires n.Internal? && j < |n.cells| && Child(n, j) == into
    ensures var n' := UnlinkedNode(n, j, into);
      && n'.Internal? && n'.parent == n.parent && |n'.cells| == |n.cells| - 1
      && (forall s: nat :: s <= |n'.cells| ==> Child(n', s) == if s <= j then Child(n, s) else Child(n, s + 1))
      && (forall s: nat :: s < |n'.cells| ==> n'.cells[s].key == if s < j then n.cells[s].key else n.cells[s + 1].key)
  {
  }

  lemma UnlinkedCellsOk(n: Page, lo: Bound, hi: Bound, j: nat, into: PageId)
    requires n.Internal? && j < |n.cells| && Child(n, j) == into && CellsOk(lo, hi, n.cells)
    ensures CellsOk(lo, hi, UnlinkedNode(n, j, into).cells)
  {
    hide Lt, ValuesSize;
    UnlinkedSlots(n, j, into);
  }

  /** The information after children j and j + 1 of p are merged into child j. */
  ghost function MergedInfo(t: Tree, p: PageId, j: nat): map<PageId, Info>
    requires p in t.pages && t.pages[p].Internal? && j < |t.pages[p].cells|
    requires Child(t.pages[p], j) in t.info && Child(t.pages[p], j + 1) in t.info
  {
    var into, from := Child(t.pages[p], j), Child(t.pages[p], j + 1);
    (t.info - {from})[into := t.info[into].(hi := t.info[from].hi, cover := t.info[from].cover)]
  }

  /** Children j and j + 1 of p: neighbours in the key order. */
  lemma Neighbours(t: Tree, p: PageId, j: nat, thin: PageId)
    requires ValidBut(t, thin) && p in t.info && t.info[p].level > 0 && j < |t.pages[p].cells|
    ensures var n, into, from := t.pages[p], Child(t.pages[p], j), Child(t.pages[p], j + 1);
      && into in t.info && from in t.info && into != from && p != into && p != from
      && into != t.root && from != t.root
      && t.info[into].level == t.info[from].level && t.info[into].level + 1 == t.info[p].level
      && t.info[into].hi == At(n.cells[j].key) == t.info[from].lo
      && ParentOf(t.pages[into]) == p && ParentOf(t.pages[from]) == p
      && SmallKey(n.cells[j].key)
  {
    hide Lt, ValuesSize, BodyOk, BoundLt;
    SlotFacts(t, p, thin, j);
    SlotFacts(t, p, thin, j + 1);
    CellsFacts(t, p, thin);
    if Child(t.pages[p], j) == Child(t.pages[p], j + 1) {
      ChildrenDistinct(t, p, thin, j, j + 1);
    }
  }

  lemma UnlinkSlot(t: Tree, t': Tree, p: PageId, j: nat, thin: PageId, s: nat)
    requires ValidBut(t, thin) && p in t.info && t.info[p].level > 0 && j < |t.pages[p].cells|
    requires Child(t.pages[p], j) in t.info && Child(t.pages[p], j + 1) in t.info
    requires t'.info == MergedInfo(t, p, j)
    requires p in t'.pages && t'.pages[p] == UnlinkedNode(t.pages[p], j, Child(t.pages[p], j))
    requires forall c :: c in t.info && ParentOf(t.pages[c]) == p ==> c in t'.pages && ParentOf(t'.pages[c]) == p
    requires s <= |t'.pages[p].cells|
    ensures p in t'.info && SlotOk(t', p, s)
  {
    hide Lt, ValuesSize, BodyOk, BoundLt;
    var n, into, from := t.pages[p], Child(t.pages[p], j), Child(t.pages[p], j + 1);
    Neighbours(t, p, j, thin);
    SlotAt(t, p, thin, j);
    SlotAt(t, p, thin, j + 1);
    UnlinkedSlots(n, j, into);
    var u := if s <= j then s else s + 1;
    SlotAt(t, p, thin, u);
    if Child(n, u) == into {
      ChildrenDistinct(t, p, thin, u, j);
    } else if Child(n, u) == from {
      ChildrenDistinct(t, p, thin, u, j + 1);
    }
  }

  lemma UnlinkBody(t: Tree, t': Tree, p: PageId, j: nat, thin: PageId)
    requires ValidBut(t, thin) && p in t.info && t.info[p].level > 0 && j < |t.pages[p].cells|
    requires Child(t.pages[p], j) in t.info && Child(t.pages[p], j + 1) in t.info
    requires t'.info == MergedInfo(t, p, j)
    requires p in t'.pages && t'.pages[p] == UnlinkedNode(t.pages[p], j, Child(t.pages[p], j))
    requires forall c :: c in t.info && ParentOf(t.pages[c]) == p ==> c in t'.pages && ParentOf(t'.pages[c]) == p
    ensures p in t'.info && BodyOk(t', p, p)
  {
    hide Lt, ValuesSize, SlotOk, CellsOk;
    Neighbours(t, p, j, thin);
    CellsFacts(t, p, thin);
    UnlinkedCellsOk(t.pages[p], t.info[p].lo, t.info[p].hi, j, Child(t.pages[p], j));
    forall s: nat | s <= |t'.pages[p].cells| ensures SlotOk(t', p, s) {
      UnlinkSlot(t, t', p, j, thin, s);
    }
  }

  // ------------------------------------------------------------ two leaves become one

  ghost function MergeLeaves(t: Tree, p: PageId, j: nat): Tree
    requires p in t.pages && t.pages[p].Internal? && j < |t.pages[p].cells|
    requires Child(t.pages[p], j) in t.info && Child(t.pages[p], j + 1) in t.info
    requires Child(t.pages[p], j) in t.pages && t.pages[Child(t.pages[p], j)].Leaf?
    requires Child(t.pages[p], j + 1) in t.pages && t.pages[Child(t.pages[p], j + 1)].Leaf?
  {
    var into, from := Child(t.pages[p], j), Child(t.pages[p], j + 1);
    var a, b := t.pages[into], t.pages[from];
    t.(pages := t.pages[into := Leaf(a.parent, b.next, a.entries + b.entries)][p := UnlinkedNode(t.pages[p], j, into)],
       info := MergedInfo(t, p, j))
  }

  lemma JoinedOk(m: map<Key, Bytes>, lo: Bound, mid: Bound, hi: Bound, a: seq<LeafEntry>, b: seq<LeafEntry>)
    requires EntriesOk(m, lo, mid, a) && EntriesOk(m, mid, hi, b)
    requires mid.At? && BoundLt(lo, mid) && BoundLt(mid, hi)
    ensures EntriesOk(m, lo, hi, a + b)
  {
    hide Lt, ValuesSize;
    OrderLaws();
    forall k | k in m && In(k, lo, hi) ensures HasKey(a + b, k) {
      if In(k, lo, mid) {
        var i :| 0 <= i < |a| && a[i].key == k;
        assert (a + b)[i].key == k;
      } else {
        assert In(k, mid, hi);
        var i :| 0 <= i < |b| && b[i].key == k;
        assert (a + b)[|a| + i].key == k;
      }
    }
  }

  lemma MergeLeavesBody(t: Tree, p: PageId, j: nat)
    requires Valid(t) && p in t.info && t.info[p].level == 1 && j < |t.pages[p].cells|
    ensures var n := t.pages[p];
      && Child(n, j) in t.info && Child(n, j + 1) in t.info
      && t.info[Child(n, j)].level == 0 && t.info[Child(n, j + 1)].level == 0
    ensures var t', into := MergeLeaves(t, p, j), Child(t.pages[p], j);
      && into in t'.info && t'.root in t'.info && RankOk(t', into) && BodyOk(t', into, p)
  {
    hide Lt, ValuesSize, EntriesOk;
    var into, from := Child(t.pages[p], j), Child(t.pages[p], j + 1);
    Neighbours(t, p, j, INVALID_PAGE);
    assert NodeOk(t, into, INVALID_PAGE) && NodeOk(t, from, INVALID_PAGE);
    JoinedOk(t.m, t.info[into].lo, t.info[from].lo, t.info[from].hi, t.pages[into].entries, t.pages[from].entries);
    BoundLtTrans(t.info[into].lo, t.info[from].lo, t.info[from].hi);
    var next := t.pages[from].next;
    if t.info[from].hi.At? && next == from {
      BoundLtTrans(t.info[from].lo, t.info[from].hi, t.info[from].lo);
    }
  }

  lemma BoundLtTrans(a: Bound, b: Bound, c: Bound)
    ensures BoundLt(a, b) && BoundLt(b, c) ==> BoundLt(a, c)
    ensures a.At? ==> !BoundLt(a, a)
  {
    if a.At? {
      KeyOrder(a.key, if b.At? then b.key else [], if c.At? then c.key else []);
    }
  }

  lemma MergeLeavesKeeps(t: Tree, p: PageId, j: nat)
    requires Valid(t) && p in t.info && t.info[p].level == 1 && j < |t.pages[p].cells|
    ensures var n := t.pages[p];
      && Child(n, j) in t.info && Child(n, j + 1) in t.info
      && t.info[Child(n, j)].level == 0 && t.info[Child(n, j + 1)].level == 0
    ensures ValidBut(MergeLeaves(t, p, j), p)
  {
    hide Lt, ValuesSize, CellsOk, EntriesOk, BoundLt;
    var into, from := Child(t.pages[p], j), Child(t.pages[p], j + 1);
    Neighbours(t, p, j, INVALID_PAGE);
    MergeLeavesBody(t, p, j);
    var t' := MergeLeaves(t, p, j);
    UnlinkBody(t, t', p, j, INVALID_PAGE);
    UnlinkedSlots(t.pages[p], j, into);
    forall q | q in t'.info ensures NodeOk(t', q, p) {
      assert NodeOk(t, q, INVALID_PAGE);
      if q != p && q != into {
        if t.info[q].level == 0 {
          if t.info[q].hi.At? && t.pages[q].next == from {
            SameHi(t, q, into, INVALID_PAGE);
          }
          LeafFrame(t, t', q, INVALID_PAGE, p);
        } else {
          forall s: nat | s <= |t.pages[q].cells| && SlotOk(t, q, s)
            ensures SameChild(t, t', Child(t.pages[q], s))
          {
          }
          InternalFrame(t, t', q, INVALID_PAGE, p);
        }
      }
      if q != t.root {
        if ParentOf(t.pages[q]) == p {
          UnlinkedLink(t, p, j, q);
        } else {
          LinkFrame(t, t', q);
        }
      }
    }
  }

  /** A child of p other than the one merged away is still a child of p. */
  lemma UnlinkedLink(t: Tree, p: PageId, j: nat, q: PageId)
    requires p in t.pages && t.pages[p].Internal? && j < |t.pages[p].cells|
    requires IsChild(t.pages[p], q) && q != Child(t.pages[p], j + 1)
    ensures IsChild(UnlinkedNode(t.pages[p], j, Child(t.pages[p], j)), q)
  {
    var n, into := t.pages[p], Child(t.pages[p], j);
    UnlinkedSlots(n, j, into);
    var s: nat :| s <= |n.cells| && Child(n, s) == q;
    assert Child(UnlinkedNode(n, j, into), if s <= j then s else s - 1) == q;
  }

  // ------------------------------------------------------------ two internal nodes become one

  function JoinedNode(a: Page, sep: Key, b: Page): Page
    requires a.Internal? && b.Internal?
  {
    Internal(a.parent, b.rightmost, a.cells + [InternalEntry(sep, a.rightmost)] + b.cells)
  }

  ghost function MergeInternals(t: Tree, p: PageId, j: nat): Tree
    requires p in t.pages && t.pages[p].Internal? && j < |t.pages[p].cells|
    requires Child(t.pages[p], j) in t.info && Child(t.pages[p], j + 1) in t.info
    requires Child(t.pages[p], j) in t.pages && t.pages[Child(t.pages[p], j)].Internal?
    requires Child(t.pages[p], j + 1) in t.pages && t.pages[Child(t.pages[p], j + 1)].Internal?
  {
    var n, into, from := t.pages[p], Child(t.pages[p], j), Child(t.pages[p], j + 1);
    var merged := JoinedNode(t.pages[into], n.cells[j].key, t.pages[from]);
    t.(pages := Reparent(t.pages[into := merged][p := UnlinkedNode(n, j, into)], Kids(t.pages[from]), into),
       info := MergedInfo(t, p, j))
  }

  lemma JoinedSlots(a: Page, sep: Key, b: Page)
    requires a.Internal? && b.Internal?
    ensures var n := JoinedNode(a, sep, b);
      && |n.cells| == |a.cells| + 1 + |b.cells|
      && (forall s: nat :: s <= |n.cells| ==> Child(n, s) == if s <= |a.cells| then Child(a, s) else Child(b, s - |a.cells| - 1))
      && (forall s: nat :: s < |n.cells| ==>
            n.cells[s].key == if s < |a.cells| then a.cells[s].key
                              else if s == |a.cells| then sep else b.cells[s - |a.cells| - 1].key)
  {
  }

  lemma JoinedCellsOk(a: Page, sep: Key, b: Page, lo: Bound, hi: Bound)
    requires a.Internal? && b.Internal?
    requires CellsOk(lo, At(sep), a.cells) && CellsOk(At(sep), hi, b.cells)
    requires SmallKey(sep) && BoundLt(lo, At(sep)) && BoundLt(At(sep), hi)
    ensures CellsOk(lo, hi, JoinedNode(a, sep, b).cells)
  {
    hide Lt, ValuesSize;
    JoinedSlots(a, sep, b);
    OrderLaws();
  }

  /** The pages below the merged node: what moved, and what did not. */
  lemma MergedKids(t: Tree, p: PageId, j: nat, thin: PageId, c: PageId)
    requires ValidBut(t, thin) && p in t.info && t.info[p].level > 1 && j < |t.pages[p].cells|
    ensures var n := t.pages[p];
      && Child(n, j) in t.info && Child(n, j + 1) in t.info
      && t.info[Child(n, j)].level > 0 && t.info[Child(n, j + 1)].level > 0
    ensures var t', n, into, from := MergeInternals(t, p, j), t.pages[p], Child(t.pages[p], j), Child(t.pages[p], j + 1);
      && t'.pages[p] == UnlinkedNode(n, j, into)
      && t'.pages[into] == JoinedNode(t.pages[into], n.cells[j].key, t.pages[from])
      && (c in Kids(t.pages[from]) ==>
            c in t.info && t.info[c].level + 2 == t.info[p].level && ParentOf(t.pages[c]) == from
            && ParentOf(t'.pages[c]) == into && c != t.root)
      && (c in t.pages && c !in Kids(t.pages[from]) && c != p && c != into ==> t'.pages[c] == t.pages[c])
  {
    hide Lt, ValuesSize, BodyOk, BoundLt;
    var n, into, from := t.pages[p], Child(t.pages[p], j), Child(t.pages[p], j + 1);
    Neighbours(t, p, j, thin);
    forall q | q in Kids(t.pages[from])
      ensures q in t.info && t.info[q].level + 2 == t.info[p].level && ParentOf(t.pages[q]) == from
    {
      var s :| 0 <= s < |Kids(t.pages[from])| && Kids(t.pages[from])[s] == q;
      SlotFacts(t, from, thin, s);
    }
  }

  lemma MergedSlot(t: Tree, p: PageId, j: nat, thin: PageId, s: nat)
    requires ValidBut(t, thin) && p in t.info && t.info[p].level > 1 && j < |t.pages[p].cells|
    requires var n := t.pages[p];
      && Child(n, j) in t.info && Child(n, j + 1) in t.info
      && t.info[Child(n, j)].level > 0 && t.info[Child(n, j + 1)].level > 0
    requires MergeInternals(t, p, j).pages[Child(t.pages[p], j)]
          == JoinedNode(t.pages[Child(t.pages[p], j)], t.pages[p].cells[j].key, t.pages[Child(t.pages[p], j + 1)])
    requires s <= |MergeInternals(t, p, j).pages[Child(t.pages[p], j)].cells|
    ensures var t', into := MergeInternals(t, p, j), Child(t.pages[p], j);
      into in t'.info && SlotOk(t', into, s)
  {
    hide Lt, ValuesSize, BodyOk, BoundLt;
    var n, into, from := t.pages[p], Child(t.pages[p], j), Child(t.pages[p], j + 1);
    var a, b := t.pages[into], t.pages[from];
    var t' := MergeInternals(t, p, j);
    Neighbours(t, p, j, thin);
    JoinedSlots(a, n.cells[j].key, b);
    if s <= |a.cells| {
      SlotAt(t, into, thin, s);
      MergedKids(t, p, j, thin, Child(a, s));
    } else {
      SlotAt(t, from, thin, s - |a.cells| - 1);
      MergedKids(t, p, j, thin, Child(b, s - |a.cells| - 1));
      assert Kids(b)[s - |a.cells| - 1] == Child(b, s - |a.cells| - 1);
    }
  }

  lemma MergedBody(t: Tree, p: PageId, j: nat, thin: PageId)
    requires ValidBut(t, thin) && p in t.info && t.info[p].level > 1 && j < |t.pages[p].cells|
    ensures var n := t.pages[p];
      && Child(n, j) in t.info && Child(n, j + 1) in t.info
      && t.info[Child(n, j)].level > 0 && t.info[Child(n, j + 1)].level > 0
    ensures var t', into := MergeInternals(t, p, j), Child(t.pages[p], j);
      && into in t'.info && t'.root in t'.info && RankOk(t', into) && BodyOk(t', into, p)
  {
    hide Lt, ValuesSize, SlotOk;
    var n, into, from := t.pages[p], Child(t.pages[p], j), Child(t.pages[p], j + 1);
    Neighbours(t, p, j, thin);
    MergedKids(t, p, j, thin, p);
    var t' := MergeInternals(t, p, j);
    assert NodeOk(t, into, thin) && NodeOk(t, from, thin);
    BoundLtTrans(t.info[into].lo, t.info[from].lo, t.info[from].hi);
    JoinedCellsOk(t.pages[into], n.cells[j].key, t.pages[from], t.info[into].lo, t.info[from].hi);
    forall s: nat | s <= |t'.pages[into].cells| ensures SlotOk(t', into, s) {
      MergedSlot(t, p, j, thin, s);
    }
  }

  lemma MergedLink(t: Tree, p: PageId, j: nat, thin: PageId, q: PageId)
    requires ValidBut(t, thin) && p in t.info && t.info[p].level > 1 && j < |t.pages[p].cells|
    requires q in t.info && q != Child(t.pages[p], j + 1)
    ensures var n := t.pages[p];
      && Child(n, j) in t.info && Child(n, j + 1) in t.info
      && t.info[Child(n, j)].level > 0 && t.info[Child(n, j + 1)].level > 0
    ensures q in MergeInternals(t, p, j).info && Linked(MergeInternals(t, p, j), q)
  {
    hide Lt, ValuesSize, BodyOk, BoundLt;
    var n, into, from := t.pages[p], Child(t.pages[p], j), Child(t.pages[p], j + 1);
    Neighbours(t, p, j, thin);
    MergedKids(t, p, j, thin, q);
    var a, b := t.pages[into], t.pages[from];
    var t' := MergeInternals(t, p, j);
    if q != t.root {
      var s := SlotOf(t, q, thin);
      var up := ParentOf(t.pages[q]);
      MergedKids(t, p, j, thin, up);
      if up == p {
        UnlinkedLink(t, p, j, q);
      } else if up == from {
        JoinedSlots(a, n.cells[j].key, b);
        assert Kids(b)[s] == q;
        assert Child(t'.pages[into], |a.cells| + 1 + s) == q;
      } else if up == into {
        JoinedSlots(a, n.cells[j].key, b);
        if q in Kids(b) {
          assert false;
        }
        assert Child(t'.pages[into], s) == q;
      } else {
        assert Child(t'.pages[up], s) == q;
      }
    }
  }

  lemma MergeInternalsKeeps(t: Tree, p: PageId, j: nat, thin: PageId)
    requires ValidBut(t, thin) && p in t.info && t.info[p].level > 1 && j < |t.pages[p].cells|
    requires thin == INVALID_PAGE || thin == Child(t.pages[p], j) || thin == Child(t.pages[p], j + 1)
    ensures var n := t.pages[p];
      && Child(n, j) in t.info && Child(n, j + 1) in t.info
      && t.info[Child(n, j)].level > 0 && t.info[Child(n, j + 1)].level > 0
    ensures ValidBut(MergeInternals(t, p, j), p)
  {
    hide Lt, ValuesSize, CellsOk, EntriesOk, BoundLt;
    var into, from := Child(t.pages[p], j), Child(t.pages[p], j + 1);
    Neighbours(t, p, j, thin);
    MergedBody(t, p, j, thin);
    var t' := MergeInternals(t, p, j);
    forall c | c in t.info && ParentOf(t.pages[c]) == p ensures c in t'.pages && ParentOf(t'.pages[c]) == p {
      MergedKids(t, p, j, thin, c);
    }
    MergedKids(t, p, j, thin, t.root);
    UnlinkBody(t, t', p, j, thin);
    forall q | q in t'.info ensures HasPage(t', q) && NodeOk(t', q, p) {
      MergedLink(t, p, j, thin, q);
      assert NodeOk(t, q, thin);
      MergedKids(t, p, j, thin, q);
      if q != p && q != into {
        if t.info[q].level == 0 {
          LeafFrame(t, t', q, thin, p);
        } else {
          MergedOthers(t, p, j, thin, q);
        }
      }
    }
  }

  /** Internal nodes that are not part of the merge. */
  lemma MergedOthers(t: Tree, p: PageId, j: nat, thin: PageId, q: PageId)
    requires ValidBut(t, thin) && p in t.info && t.info[p].level > 1 && j < |t.pages[p].cells|
    requires thin == INVALID_PAGE || thin == Child(t.pages[p], j) || thin == Child(t.pages[p], j + 1)
    requires q in t.info && t.info[q].level > 0 && q != p && q != Child(t.pages[p], j) && q != Child(t.pages[p], j + 1)
    ensures var n := t.pages[p];
      && Child(n, j) in t.info && Child(n, j + 1) in t.info
      && t.info[Child(n, j)].level > 0 && t.info[Child(n, j + 1)].level > 0
    ensures q in MergeInternals(t, p, j).info && q in MergeInternals(t, p, j).pages && BodyOk(MergeInternals(t, p, j), q, p)
  {
    hide Lt, ValuesSize, InternalOk, BoundLt;
    var into, from := Child(t.pages[p], j), Child(t.pages[p], j + 1);
    Neighbours(t, p, j, thin);
    MergedKids(t, p, j, thin, q);
    var t' := MergeInternals(t, p, j);
    forall s: nat | s <= |t.pages[q].cells| && SlotOk(t, q, s)
      ensures SameChild(t, t', Child(t.pages[q], s))
    {
      MergedKids(t, p, j, thin, Child(t.pages[q], s));
    }
    assert NodeOk(t, q, thin);
    InternalFrame(t, t', q, thin, p);
  }

  // ------------------------------------------------------------ the root loses its last separator

  ghost function CollapseRoot(t: Tree): Tree
    requires t.root in t.pages && t.pages[t.root].Internal? && t.pages[t.root].rightmost in t.pages
  {
    var only := t.pages[t.root].rightmost;
    t.(pages := t.pages[only := WithParent(t.pages[only], INVALID_PAGE)], root := only, info := t.info - {t.root})
  }

  lemma CollapseRootKeeps(t: Tree)
    requires ValidBut(t, t.root) && t.info[t.root].level > 0 && t.pages[t.root].cells == []
    ensures t.pages[t.root].rightmost in t.info
    ensures Valid(CollapseRoot(t))
  {
    hide Lt, ValuesSize, CellsOk, EntriesOk, BoundLt;
    var only := t.pages[t.root].rightmost;
    SlotFacts(t, t.root, t.root, 0);
    var t' := CollapseRoot(t);
    forall q | q in t'.info ensures NodeOk(t', q, INVALID_PAGE) {
      assert NodeOk(t, q, t.root);
      if t.info[q].level == 0 {
        LeafFrame(t, t', q, t.root, INVALID_PAGE);
      } else {
        InternalFrame(t, t', q, t.root, INVALID_PAGE);
      }
      var s := SlotOf(t, q, t.root);
      var up := ParentOf(t.pages[q]);
      assert NodeOk(t, up, t.root);
      if up != t.root {
        assert Child(t'.pages[up], s) == q;
      }
    }
  }
}
