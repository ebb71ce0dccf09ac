/** Redistribution between siblings (src/btree/btree.cpp:662-826).

    Moving an entry across a separator is a merge of the two siblings followed by a split in another
    place, so that both kinds of node inherit their proofs from the merge and split steps.
 */
module ShiftSteps {
  import opened Keys
  import opened Pages
  import opened Wrappers
  import opened TreeShape
  import opened InsertSteps
  import opened RemoveSteps

  /** The parent with separator j replaced. */
  function Reseparated(n: Page, j: nat, sep: Key): Page
    requires n.Internal? && j < |n.cells|
  {
    n.(cells := n.cells[j := n.cells[j].(key := sep)])
  }

  lemma RelinkIsReseparate(n: Page, j: nat, sep: Key)
    requires n.Internal? && j < |n.cells|
    ensures LinkedNode(UnlinkedNode(n, j, Child(n, j)), j, Child(n, j), sep, Child(n, j + 1)) == Reseparated(n, j, sep)
    ensures Child(UnlinkedNode(n, j, Child(n, j)), j) == Child(n, j)
  {
  }

  ghost function ShiftedInfo(t: Tree, p: PageId, j: nat, sep: Key): map<PageId, Info>
    requires p in t.pages && t.pages[p].Internal? && j < |t.pages[p].cells|
    requires Child(t.pages[p], j) in t.info && Child(t.pages[p], j + 1) in t.info
  {
    var a, b := Child(t.pages[p], j), Child(t.pages[p], j + 1);
    t.info[a := t.info[a].(hi := At(sep), cover := At(sep))][b := t.info[b].(lo := At(sep))]
  }

  // ------------------------------------------------------------ leaves

  /** The entries of leaves j and j + 1 of p, divided anew before entry x. */
  ghost function ShiftLeaves(t: Tree, p: PageId, j: nat, x: nat): Tree
    requires p in t.pages && t.pages[p].Internal? && j < |t.pages[p].cells|
    requires Child(t.pages[p], j) in t.info && Child(t.pages[p], j + 1) in t.info
    requires Child(t.pages[p], j) in t.pages && t.pages[Child(t.pages[p], j)].Leaf?
    requires Child(t.pages[p], j + 1) in t.pages && t.pages[Child(t.pages[p], j + 1)].Leaf?
    requires x < |t.pages[Child(t.pages[p], j)].entries| + |t.pages[Child(t.pages[p], j + 1)].entries|
  {
    var a, b := Child(t.pages[p], j), Child(t.pages[p], j + 1);
    var all := t.pages[a].entries + t.pages[b].entries;
    t.(pages := t.pages[a := t.pages[a].(entries := all[..x])][b := t.pages[b].(entries := all[x..])]
                       [p := Reseparated(t.pages[p], j, all[x].key)],
       info := ShiftedInfo(t, p, j, all[x].key))
  }

  lemma NextIsNeighbour(t: Tree, p: PageId, j: nat)
    requires Valid(t) && p in t.info && t.info[p].level == 1 && j < |t.pages[p].cells|
    ensures Child(t.pages[p], j) in t.pages && t.pages[Child(t.pages[p], j)].Leaf?
    ensures t.pages[Child(t.pages[p], j)].next == Child(t.pages[p], j + 1)
  {
    hide Lt, ValuesSize, EntriesOk;
    var a, b := Child(t.pages[p], j), Child(t.pages[p], j + 1);
    Neighbours(t, p, j, INVALID_PAGE);
    assert NodeOk(t, a, INVALID_PAGE) && NodeOk(t, b, INVALID_PAGE);
    var next := t.pages[a].next;
    assert NodeOk(t, next, INVALID_PAGE);
    var sep := t.info[b].lo.key;
    KeyOrder(sep, sep, sep);
    OnePage(t, next, b, sep, INVALID_PAGE);
  }

  lemma ShiftLeavesKeeps(t: Tree, p: PageId, j: nat, x: nat)
    requires Valid(t) && p in t.info && t.info[p].level == 1 && j < |t.pages[p].cells|
    requires Child(t.pages[p], j) in t.pages && Child(t.pages[p], j + 1) in t.pages
    requires t.pages[Child(t.pages[p], j)].Leaf? && t.pages[Child(t.pages[p], j + 1)].Leaf?
    requires 0 < x < |t.pages[Child(t.pages[p], j)].entries| + |t.pages[Child(t.pages[p], j + 1)].entries|
    ensures Child(t.pages[p], j) in t.info && Child(t.pages[p], j + 1) in t.info
    ensures Valid(ShiftLeaves(t, p, j, x))
  {
    hide Lt, ValuesSize, BodyOk, BoundLt, Linked;
    var a, b := Child(t.pages[p], j), Child(t.pages[p], j + 1);
    Neighbours(t, p, j, INVALID_PAGE);
    NextIsNeighbour(t, p, j);
    MergeLeavesKeeps(t, p, j);
    var t1 := MergeLeaves(t, p, j);
    var sep := t1.pages[a].entries[x].key;
    SplitLeafKeeps(t1, a, b, x, p);
    var t2 := SplitLeaf(t1, a, b, x);
    RelinkIsReseparate(t.pages[p], j, sep);
    LinkRightKeeps(t2, a, sep, b, p, j, p);
    var t3 := LinkRight(t2, a, sep, b, p, j);
    assert t3.pages == ShiftLeaves(t, p, j, x).pages;
    assert t3.info == ShiftLeaves(t, p, j, x).info;
  }

  // ------------------------------------------------------------ internal nodes

  /** The cells of nodes j and j + 1 of p, the separator between them, divided anew around cell x. */
  ghost function ShiftInternals(t: Tree, p: PageId, j: nat, x: nat): Tree
    requires p in t.pages && t.pages[p].Internal? && j < |t.pages[p].cells|
    requires Child(t.pages[p], j) in t.info && Child(t.pages[p], j + 1) in t.info
    requires Child(t.pages[p], j) in t.pages && t.pages[Child(t.pages[p], j)].Internal?
    requires Child(t.pages[p], j + 1) in t.pages && t.pages[Child(t.pages[p], j + 1)].Internal?
    requires x <= |t.pages[Child(t.pages[p], j)].cells| + |t.pages[Child(t.pages[p], j + 1)].cells|
  {
    var n, a, b := t.pages[p], Child(t.pages[p], j), Child(t.pages[p], j + 1);
    var all := JoinedNode(t.pages[a], n.cells[j].key, t.pages[b]);
    var right := Internal(p, all.rightmost, all.cells[x + 1..]);
    t.(pages := Reparent(Reparent(
                  t.pages[p := Reseparated(n, j, all.cells[x].key)]
                         [a := Internal(p, all.cells[x].child, all.cells[..x])][b := right],
                  Kids(t.pages[b]), a), Kids(right), b),
       info := ShiftedInfo(t, p, j, all.cells[x].key))
  }

  /** Merged, split at another key and listed again, two pages have divided their intervals anew. */
  lemma ThreeInfos(info: map<PageId, Info>, a: PageId, b: PageId, sep: Key)
    requires a in info && b in info && a != b && info[a].level == info[b].level && info[b].listed
    ensures var merged := (info - {b})[a := info[a].(hi := info[b].hi, cover := info[b].cover)];
      var halves := merged[a := merged[a].(hi := At(sep))][b := Info(info[a].level, At(sep), info[b].hi, info[b].cover, false)];
      halves[a := halves[a].(cover := At(sep))][b := halves[b].(listed := true)]
      == info[a := info[a].(hi := At(sep), cover := At(sep))][b := info[b].(lo := At(sep))]
  {
  }

  lemma ShiftInternalsKeeps(t: Tree, p: PageId, j: nat, x: nat, thin: PageId)
    requires ValidBut(t, thin) && p in t.info && t.info[p].level > 1 && j < |t.pages[p].cells|
    requires thin == INVALID_PAGE || thin == Child(t.pages[p], j) || thin == Child(t.pages[p], j + 1)
    requires Child(t.pages[p], j) in t.pages && Child(t.pages[p], j + 1) in t.pages
    requires t.pages[Child(t.pages[p], j)].Internal? && t.pages[Child(t.pages[p], j + 1)].Internal?
    requires 0 < x < |t.pages[Child(t.pages[p], j)].cells| + |t.pages[Child(t.pages[p], j + 1)].cells|
    ensures Child(t.pages[p], j) in t.info && Child(t.pages[p], j + 1) in t.info
    ensures Valid(ShiftInternals(t, p, j, x))
  {
    hide Lt, ValuesSize, NodeOk, BoundLt, SmallKey;
    var n, a, b := t.pages[p], Child(t.pages[p], j), Child(t.pages[p], j + 1);
    Neighbours(t, p, j, thin);
    MergeInternalsKeeps(t, p, j, thin);
    MergedKids(t, p, j, thin, p);
    MergedKids(t, p, j, thin, a);
    MergedKids(t, p, j, thin, b);
    var t1 := MergeInternals(t, p, j);
    JoinedSlots(t.pages[a], n.cells[j].key, t.pages[b]);
    var sep := t1.pages[a].cells[x].key;
    SplitInternalKeeps(t1, a, b, x, p);
    var t2 := SplitInternal(t1, a, b, x);
    RelinkIsReseparate(n, j, sep);
    var right := Internal(p, t1.pages[a].rightmost, t1.pages[a].cells[x + 1..]);
    MovedKids(t1, a, x, right, p, p);
    MovedKids(t1, a, x, right, a, p);
    MovedKids(t1, a, x, right, b, p);
    LinkRightKeeps(t2, a, sep, b, p, j, p);
    var t3 := LinkRight(t2, a, sep, b, p, j);
    ThreeInfos(t.info, a, b, sep);
    assert t3.pages == ShiftInternals(t, p, j, x).pages;
  }

  /** A kid of a node has that node as its parent and is neither p nor one of the two siblings. */
  lemma KidOf(t: Tree, p: PageId, j: nat, x: PageId, thin: PageId, c: PageId)
    requires ValidBut(t, thin) && p in t.info && t.info[p].level > 1 && j < |t.pages[p].cells|
    requires x == Child(t.pages[p], j) || x == Child(t.pages[p], j + 1)
    requires x in t.pages && t.pages[x].Internal? && c in Kids(t.pages[x])
    ensures c in t.info && c in t.pages && ParentOf(t.pages[c]) == x
    ensures c != p && c != Child(t.pages[p], j) && c != Child(t.pages[p], j + 1)
    ensures WithParent(t.pages[c], x) == t.pages[c]
  {
    hide Lt, ValuesSize, BodyOk, BoundLt;
    Neighbours(t, p, j, thin);
    var s :| 0 <= s < |Kids(t.pages[x])| && Kids(t.pages[x])[s] == c;
    SlotFacts(t, x, thin, s);
  }

  /** What borrowing the last cell of the left sibling writes. */
  ghost function BorrowLeftPages(t: Tree, p: PageId, j: nat): map<PageId, Page>
    requires p in t.pages && t.pages[p].Internal? && j < |t.pages[p].cells|
    requires var a, b := Child(t.pages[p], j), Child(t.pages[p], j + 1);
      && a in t.pages && t.pages[a].Internal? && t.pages[a].cells != []
      && b in t.pages && t.pages[b].Internal? && t.pages[a].rightmost in t.pages
  {
    var a, b := Child(t.pages[p], j), Child(t.pages[p], j + 1);
    var l, r := t.pages[a], t.pages[b];
    var promoted := l.cells[|l.cells| - 1];
    t.pages[a := l.(rightmost := promoted.child, cells := l.cells[..|l.cells| - 1])]
           [b := r.(cells := [InternalEntry(t.pages[p].cells[j].key, l.rightmost)] + r.cells)]
           [l.rightmost := WithParent(t.pages[l.rightmost], b)]
           [p := Reseparated(t.pages[p], j, promoted.key)]
  }

  lemma BorrowLeftIsShift(t: Tree, p: PageId, j: nat, thin: PageId)
    requires ValidBut(t, thin) && p in t.info && t.info[p].level > 1 && j < |t.pages[p].cells|
    requires Child(t.pages[p], j) in t.pages && t.pages[Child(t.pages[p], j)].Internal?
    requires Child(t.pages[p], j + 1) in t.pages && t.pages[Child(t.pages[p], j + 1)].Internal?
    requires t.pages[Child(t.pages[p], j)].cells != []
    ensures Child(t.pages[p], j) in t.info && Child(t.pages[p], j + 1) in t.info
    ensures t.pages[Child(t.pages[p], j)].rightmost in t.pages
    ensures BorrowLeftPages(t, p, j).Keys == t.pages.Keys
    ensures forall q :: q in t.pages && q !in t.info ==> BorrowLeftPages(t, p, j)[q] == t.pages[q]
    ensures BorrowLeftPages(t, p, j) == ShiftInternals(t, p, j, |t.pages[Child(t.pages[p], j)].cells| - 1).pages
    ensures var left := t.pages[Child(t.pages[p], j)].rightmost;
      left in t.info && left != p && left != Child(t.pages[p], j) && left != Child(t.pages[p], j + 1)
  {
    hide Lt, ValuesSize, NodeOk;
    var a, b := Child(t.pages[p], j), Child(t.pages[p], j + 1);
    var l, r := t.pages[a], t.pages[b];
    Neighbours(t, p, j, thin);
    assert Kids(l)[|l.cells|] == l.rightmost;
    KidOf(t, p, j, a, thin, l.rightmost);
    var x := |l.cells| - 1;
    var all := JoinedNode(l, t.pages[p].cells[j].key, r);
    var right := Internal(p, all.rightmost, all.cells[x + 1..]);
    assert all.cells[x + 1..] == [InternalEntry(t.pages[p].cells[j].key, l.rightmost)] + r.cells;
    assert all.cells[..x] == l.cells[..x];
    assert Kids(right) == [l.rightmost] + Kids(r);
    forall c | c in Kids(r) ensures c in t.pages && WithParent(t.pages[c], b) == t.pages[c] && c != p && c != a && c != b && c != l.rightmost {
      KidOf(t, p, j, b, thin, c);
    }
  }

  /** What borrowing the first cell of the right sibling writes. */
  ghost function BorrowRightPages(t: Tree, p: PageId, j: nat): map<PageId, Page>
    requires p in t.pages && t.pages[p].Internal? && j < |t.pages[p].cells|
    requires var a, b := Child(t.pages[p], j), Child(t.pages[p], j + 1);
      && a in t.pages && t.pages[a].Internal?
      && b in t.pages && t.pages[b].Internal? && t.pages[b].cells != [] && t.pages[b].cells[0].child in t.pages
  {
    var a, b := Child(t.pages[p], j), Child(t.pages[p], j + 1);
    var l, r := t.pages[a], t.pages[b];
    var promoted := r.cells[0];
    t.pages[a := l.(rightmost := promoted.child, cells := l.cells + [InternalEntry(t.pages[p].cells[j].key, l.rightmost)])]
           [b := r.(cells := r.cells[1..])]
           [promoted.child := WithParent(t.pages[promoted.child], a)]
           [p := Reseparated(t.pages[p], j, promoted.key)]
  }

  lemma BorrowRightIsShift(t: Tree, p: PageId, j: nat, thin: PageId)
    requires ValidBut(t, thin) && p in t.info && t.info[p].level > 1 && j < |t.pages[p].cells|
    requires Child(t.pages[p], j) in t.pages && t.pages[Child(t.pages[p], j)].Internal?
    requires Child(t.pages[p], j + 1) in t.pages && t.pages[Child(t.pages[p], j + 1)].Internal?
    requires t.pages[Child(t.pages[p], j + 1)].cells != []
    ensures Child(t.pages[p], j) in t.info && Child(t.pages[p], j + 1) in t.info
    ensures t.pages[Child(t.pages[p], j + 1)].cells[0].child in t.pages
    ensures BorrowRightPages(t, p, j).Keys == t.pages.Keys
    ensures forall q :: q in t.pages && q !in t.info ==> BorrowRightPages(t, p, j)[q] == t.pages[q]
    ensures BorrowRightPages(t, p, j) == ShiftInternals(t, p, j, |t.pages[Child(t.pages[p], j)].cells| + 1).pages
    ensures var moved := t.pages[Child(t.pages[p], j + 1)].cells[0].child;
      moved in t.info && moved != p && moved != Child(t.pages[p], j) && moved != Child(t.pages[p], j + 1)
  {
    hide Lt, ValuesSize, NodeOk;
    var a, b := Child(t.pages[p], j), Child(t.pages[p], j + 1);
    var l, r := t.pages[a], t.pages[b];
    Neighbours(t, p, j, thin);
    var moved := r.cells[0].child;
    assert Kids(r)[0] == moved;
    KidOf(t, p, j, b, thin, moved);
    var x := |l.cells| + 1;
    var all := JoinedNode(l, t.pages[p].cells[j].key, r);
    var right := Internal(p, all.rightmost, all.cells[x + 1..]);
    assert all.cells[x + 1..] == r.cells[1..];
    assert all.cells[..x] == l.cells + [InternalEntry(t.pages[p].cells[j].key, l.rightmost)];
    assert Kids(r) == [moved] + Kids(right);
    assert moved !in Kids(right) by {
      if moved in Kids(right) {
        var s :| 0 <= s < |Kids(right)| && Kids(right)[s] == moved;
        assert Child(r, s + 1) == Kids(r)[s + 1] == Child(r, 0);
        ChildrenDistinct(t, b, thin, s + 1, 0);
      }
    }
    forall c | c in Kids(r) ensures c in t.pages && WithParent(t.pages[c], b) == t.pages[c] && c != p && c != a && c != b {
      KidOf(t, p, j, b, thin, c);
    }
  }

  // ------------------------------------------------------------ what borrowing a leaf entry writes

  lemma BorrowLeafLeftIsShift(t: Tree, p: PageId, j: nat)
    requires Valid(t) && p in t.info && t.info[p].level == 1 && j < |t.pages[p].cells|
    requires Child(t.pages[p], j) in t.pages && Child(t.pages[p], j + 1) in t.pages
    requires t.pages[Child(t.pages[p], j)].Leaf? && t.pages[Child(t.pages[p], j + 1)].Leaf?
    requires |t.pages[Child(t.pages[p], j)].entries| >= 2
    ensures Child(t.pages[p], j) in t.info && Child(t.pages[p], j + 1) in t.info
    ensures var a, b := Child(t.pages[p], j), Child(t.pages[p], j + 1);
      var l, c, x := t.pages[a], t.pages[b], |t.pages[a].entries| - 1;
      var t' := ShiftLeaves(t, p, j, x);
      && Valid(t') && t'.root == t.root && t'.m == t.m && t'.info.Keys == t.info.Keys
      && t'.pages == t.pages[a := l.(entries := l.entries[..x])][b := c.(entries := [l.entries[x]] + c.entries)]
                            [p := Reseparated(t.pages[p], j, l.entries[x].key)]
  {
    hide NodeOk;
    var l, c := t.pages[Child(t.pages[p], j)], t.pages[Child(t.pages[p], j + 1)];
    var x := |l.entries| - 1;
    var all := l.entries + c.entries;
    assert all[..x] == l.entries[..x];
    assert all[x..] == [l.entries[x]] + c.entries;
    ShiftLeavesKeeps(t, p, j, x);
  }

  /** The separator that replaces the old one when the first entry of the right sibling has been borrowed. */
  function NewRightFirst(right: seq<LeafEntry>): Key
    requires right != []
  {
    if right[1..] == [] then right[0].key else right[1].key
  }

  /** The pages when leaf `page` has taken the first entry of its right sibling. */
  function FirstEntryMoved(pages: map<PageId, Page>, page: PageId, right: PageId, parent: PageId, j: nat): map<PageId, Page>
    requires page in pages && pages[page].Leaf? && right in pages && pages[right].Leaf? && pages[right].entries != []
    requires parent in pages && pages[parent].Internal? && j < |pages[parent].cells|
  {
    var r, c := pages[right], pages[page];
    pages[right := r.(entries := r.entries[1..])][page := c.(entries := c.entries + [r.entries[0]])]
         [parent := Reseparated(pages[parent], j, NewRightFirst(r.entries))]
  }

  lemma BorrowLeafRightIsShift(t: Tree, p: PageId, j: nat)
    requires Valid(t) && p in t.info && t.info[p].level == 1 && j < |t.pages[p].cells|
    requires Child(t.pages[p], j) in t.pages && Child(t.pages[p], j + 1) in t.pages
    requires t.pages[Child(t.pages[p], j)].Leaf? && t.pages[Child(t.pages[p], j + 1)].Leaf?
    requires |t.pages[Child(t.pages[p], j + 1)].entries| >= 2
    ensures Child(t.pages[p], j) in t.info && Child(t.pages[p], j + 1) in t.info
    ensures var a, b := Child(t.pages[p], j), Child(t.pages[p], j + 1);
      var c, r := t.pages[a], t.pages[b];
      var t' := ShiftLeaves(t, p, j, |c.entries| + 1);
      && Valid(t') && t'.root == t.root && t'.m == t.m && t'.info.Keys == t.info.Keys
      && t'.pages == FirstEntryMoved(t.pages, a, b, p, j)
  {
    hide NodeOk;
    Neighbours(t, p, j, INVALID_PAGE);
    var c, r := t.pages[Child(t.pages[p], j)], t.pages[Child(t.pages[p], j + 1)];
    var x := |c.entries| + 1;
    var all := c.entries + r.entries;
    assert all[..x] == c.entries + [r.entries[0]];
    assert all[x..] == r.entries[1..];
    ShiftLeavesKeeps(t, p, j, x);
  }

  // ------------------------------------------------------------ a donor with one entry

  /** Two leaves below one page, with keys of any size. */
  ghost predicate TwoLeaves(pages: map<PageId, Page>, p: PageId, a: PageId, b: PageId, sep: Key) {
    && p != a && p != b && a != b && p in pages && a in pages && b in pages
    && pages[p].Internal? && pages[p].cells == [InternalEntry(sep, a)] && pages[p].rightmost == b
    && pages[a].Leaf? && pages[b].Leaf? && EntriesSorted(pages[a].entries + pages[b].entries)
    && (forall i :: 0 <= i < |pages[a].entries| ==> Lt(pages[a].entries[i].key, sep))
    && (forall i :: 0 <= i < |pages[b].entries| ==> !Lt(pages[b].entries[i].key, sep))
  }

  /** The right leaf gives away its first entry.  The key is still found if and only if the leaf had a second
      one: equal keys are looked for to the right of their separator. */
  lemma DonatedKeyIsFoundIff(pages: map<PageId, Page>, p: PageId, a: PageId, b: PageId, sep: Key)
    requires TwoLeaves(pages, p, a, b, sep) && pages[b].entries != []
    ensures var e := pages[b].entries[0];
      && Lookup(pages, p, e.key, 1) == Some(e.value)
      && Lookup(FirstEntryMoved(pages, a, b, p, 0), p, e.key, 1) == if |pages[b].entries| >= 2 then Some(e.value) else None
  {
    hide Lt;
    OrderLaws();
    var left, right := pages[a].entries, pages[b].entries;
    var e := right[0];
    assert (left + right)[|left|] == e;
    SlotOfOne(sep, a, e.key);
    FirstValue(right, 0);
    SlotOfOne(NewRightFirst(right), a, e.key);
    assert Lookup(pages, p, e.key, 1) == Lookup(pages, b, e.key, 0);
    var after := FirstEntryMoved(pages, a, b, p, 0);
    assert after[p].cells == [InternalEntry(NewRightFirst(right), a)];
    if |right| >= 2 {
      assert (left + right)[|left| + 1] == right[1];
      assert forall i :: 0 <= i < |left| ==> (left + right)[i] == left[i];
      FirstValue(left + [e], |left|);
      assert Lookup(after, p, e.key, 1) == Lookup(after, a, e.key, 0);
    } else {
      assert Lookup(after, p, e.key, 1) == Lookup(after, b, e.key, 0);
    }
  }

  lemma SlotOfOne(sep: Key, child: PageId, k: Key)
    ensures SlotFor([InternalEntry(sep, child)], k) == if Lt(k, sep) then 0 else 1
  {
    hide Lt;
  }

  lemma {:induction false} FirstValue(entries: seq<LeafEntry>, i: nat)
    requires i < |entries| && forall j :: 0 <= j < i ==> entries[j].key != entries[i].key
    ensures ValueOf(entries, entries[i].key) == Some(entries[i].value)
  {
    if i > 0 {
      FirstValue(entries[1..], i - 1);
    }
  }

  /** Such a donor passes the source's test, which asks only that it is not underfull: its lone entry fills
      more than half the page.  The entry is then lost to searches. */
  lemma LoneDonorIsAccepted() returns (pages: map<PageId, Page>, e: LeafEntry)
    ensures TwoLeaves(pages, 1, 2, 3, [Int(7)]) && pages[3].entries == [e] && LeafUsed([e]) <= CAPACITY
    ensures IsUnderfull(pages[2]) && !IsUnderfull(pages[3])
    ensures Lookup(pages, 1, e.key, 1) == Some(e.value) && Lookup(FirstEntryMoved(pages, 2, 3, 1, 0), 1, e.key, 1) == None
  {
    e := LeafEntry([Int(7)], seq(2100, i => 0));
    pages := map[1 := Internal(INVALID_PAGE, 3, [InternalEntry([Int(7)], 2)]), 2 := Leaf(1, 3, []), 3 := Leaf(1, INVALID_PAGE, [e])];
    assert [Int(7)][1..] == [];
    assert ValuesSize([Int(7)]) == 5 && LeafEntrySize(e) == 2111;
    assert LeafUsed([e]) == 2111;
    KeyOrder(e.key, e.key, e.key);
    assert [] + [e] == [e];
    DonatedKeyIsFoundIff(pages, 1, 2, 3, [Int(7)]);
  }
}
