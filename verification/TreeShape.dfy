/** What a B+ tree on a page map looks like (src/btree/btree.cpp, src/btree/btree_node.h). */
module TreeShape {
  import opened Keys
  import opened Pages
  import opened Wrappers

  datatype Bound = NegInf | At(key: Key) | PosInf

  predicate BoundLt(lo: Bound, hi: Bound) {
    match lo
    case NegInf => !hi.NegInf?
    case At(k) => hi.PosInf? || (hi.At? && Lt(k, hi.key))
    case PosInf => false
  }

  /** lo <= k < hi */
  predicate In(k: Key, lo: Bound, hi: Bound) {
    && (lo.NegInf? || (lo.At? && !Lt(k, lo.key)))
    && (hi.PosInf? || (hi.At? && Lt(k, hi.key)))
  }

  /** The invariant is local: a page is well formed when it agrees with its own information and that of its
      children and its right neighbour.

      This is the ghost information about one page of the tree.  It holds the keys of [lo, hi); its slot in its
      parent covers [lo, cover).  The two differ, and the page's new right half is not `listed` by any
      parent, exactly while a split of the page has not yet reached the parent. */
  datatype Info = Info(level: nat, lo: Bound, hi: Bound, cover: Bound, listed: bool)

  predicate Settled(i: Info) { i.listed && i.cover == i.hi }

  /** A tree: the page map, the root, the ghost information, and the map the tree represents. */
  datatype Tree = Tree(pages: map<PageId, Page>, root: PageId, info: map<PageId, Info>, m: map<Key, Bytes>)

  // ------------------------------------------------------------ well-formedness

  predicate SmallKey(k: Key) { InternalEntrySize(k) <= CAPACITY / 4 }

  predicate SmallEntry(e: LeafEntry) { SmallKey(e.key) && LeafEntrySize(e) < CAPACITY / 2 }

  predicate HasKey(entries: seq<LeafEntry>, k: Key) {
    exists i :: 0 <= i < |entries| && entries[i].key == k
  }

  predicate EntriesSorted(entries: seq<LeafEntry>) {
    forall i, j :: 0 <= i < j < |entries| ==> Lt(entries[i].key, entries[j].key)
  }

  predicate CellsSorted(cells: seq<InternalEntry>) {
    forall i, j :: 0 <= i < j < |cells| ==> Lt(cells[i].key, cells[j].key)
  }

  /** The leaf holds exactly the part of m that falls into its interval, in key order. */
  ghost predicate EntriesOk(m: map<Key, Bytes>, lo: Bound, hi: Bound, entries: seq<LeafEntry>) {
    && EntriesSorted(entries)
    && (forall i :: 0 <= i < |entries| ==>
          var e := entries[i];
          In(e.key, lo, hi) && e.key in m && m[e.key] == e.value && SmallEntry(e))
    && (forall k :: k in m && In(k, lo, hi) ==> HasKey(entries, k))
  }

  ghost predicate LeafOk(t: Tree, p: PageId)
    requires p in t.info && p in t.pages && t.pages[p].Leaf?
  {
    var n, i := t.pages[p], t.info[p];
    && EntriesOk(t.m, i.lo, i.hi, n.entries)
    && (i.hi.PosInf? ==> n.next == INVALID_PAGE)
    && (i.hi.At? ==> n.next in t.info && t.info[n.next].level == 0 && t.info[n.next].lo == i.hi)
  }

  function SlotLo(n: Page, lo: Bound, i: nat): Bound
    requires n.Internal? && i <= |n.cells|
  {
    if i == 0 then lo else At(n.cells[i - 1].key)
  }

  function SlotHi(n: Page, hi: Bound, i: nat): Bound
    requires n.Internal? && i <= |n.cells|
  {
    if i < |n.cells| then At(n.cells[i].key) else hi
  }

  ghost predicate SlotOk(t: Tree, p: PageId, i: nat)
    requires p in t.info && p in t.pages && t.pages[p].Internal? && i <= |t.pages[p].cells|
  {
    var n, c := t.pages[p], Child(t.pages[p], i);
    && c in t.info && c in t.pages
    && ParentOf(t.pages[c]) == p
    && t.info[c].listed
    && t.info[c].level + 1 == t.info[p].level
    && t.info[c].lo == SlotLo(n, t.info[p].lo, i)
    && t.info[c].cover == SlotHi(n, t.info[p].hi, i)
  }

  ghost predicate CellsOk(lo: Bound, hi: Bound, cells: seq<InternalEntry>) {
    && CellsSorted(cells)
    && (forall i :: 0 <= i < |cells| ==>
          BoundLt(lo, At(cells[i].key)) && BoundLt(At(cells[i].key), hi) && SmallKey(cells[i].key))
  }

  ghost predicate InternalOk(t: Tree, p: PageId, thin: PageId)
    requires p in t.info && p in t.pages && t.pages[p].Internal?
  {
    var n, i := t.pages[p], t.info[p];
    && (|n.cells| >= 1 || p == thin)
    && CellsOk(i.lo, i.hi, n.cells)
    && (forall s: nat :: s <= |n.cells| ==> SlotOk(t, p, s))
  }

  predicate IsChild(n: Page, c: PageId)
    requires n.Internal?
  {
    exists s: nat :: s <= |n.cells| && Child(n, s) == c
  }

  ghost predicate Linked(t: Tree, p: PageId)
    requires p in t.info && p in t.pages
  {
    p != t.root && t.info[p].listed ==>
      var q := ParentOf(t.pages[p]);
      q in t.info && q in t.pages && t.pages[q].Internal? && IsChild(t.pages[q], p)
  }

  /** The node's interval and its rank among the levels. */
  ghost predicate RankOk(t: Tree, p: PageId)
    requires p in t.info && t.root in t.info
  {
    var i := t.info[p];
    && p in t.pages && 0 < p
    && BoundLt(i.lo, i.hi) && !i.lo.PosInf? && !i.hi.NegInf?
    && i.level <= t.info[t.root].level
    && (i.listed && i.level == t.info[t.root].level ==> p == t.root)
  }

  /** The node's entries; only the internal node `thin` may be without separators. */
  ghost predicate BodyOk(t: Tree, p: PageId, thin: PageId)
    requires p in t.info && p in t.pages
  {
    if t.info[p].level == 0 then t.pages[p].Leaf? && LeafOk(t, p)
    else t.pages[p].Internal? && InternalOk(t, p, thin)
  }

  /** Page p is a well-formed node of t. */
  ghost predicate NodeOk(t: Tree, p: PageId, thin: PageId)
    requires p in t.info && t.root in t.info
  {
    RankOk(t, p) && BodyOk(t, p, thin) && Linked(t, p)
  }

  /** The page exists and is of the kind its level asks for. */
  ghost predicate HasPage(t: Tree, p: PageId)
    requires p in t.info
  {
    p in t.pages && 0 < p && if t.info[p].level == 0 then t.pages[p].Leaf? else t.pages[p].Internal?
  }

  ghost predicate RootOk(t: Tree) {
    && t.root in t.info && t.root in t.pages
    && ParentOf(t.pages[t.root]) == INVALID_PAGE
    && t.info[t.root].lo == NegInf && t.info[t.root].cover == PosInf && t.info[t.root].listed
  }

  /** The invariant, splits in progress and one thin node allowed. */
  ghost predicate Shaped(t: Tree, thin: PageId) {
    && RootOk(t)
    && (forall p :: p in t.info ==> HasPage(t, p))
    && (forall p {:trigger NodeOk(t, p, thin)} :: p in t.info ==> NodeOk(t, p, thin))
  }

  /** No split in progress. */
  ghost predicate ValidBut(t: Tree, thin: PageId) {
    Shaped(t, thin) && forall p :: p in t.info ==> Settled(t.info[p])
  }

  /** The invariant between operations. */
  ghost predicate Valid(t: Tree) {
    ValidBut(t, INVALID_PAGE)
  }

  /** A split of `left` at `sep` that has not reached the parent: `right` waits to be listed. */
  ghost predicate Pending(t: Tree, left: PageId, sep: Key, right: PageId) {
    && left in t.info && right in t.info && left != right
    && t.info[left].listed && !t.info[right].listed
    && t.info[left].level == t.info[right].level
    && t.info[left].hi == At(sep) == t.info[right].lo
    && t.info[left].cover == t.info[right].cover == t.info[right].hi
    && SmallKey(sep)
  }

  lemma SlotAt(t: Tree, p: PageId, thin: PageId, s: nat)
    requires Shaped(t, thin) && p in t.info && t.info[p].level > 0 && s <= |t.pages[p].cells|
    ensures SlotOk(t, p, s)
  {
    assert NodeOk(t, p, thin);
  }

  /** What SlotOk says, without the rest of the node. */
  lemma SlotFacts(t: Tree, p: PageId, thin: PageId, s: nat)
    requires Shaped(t, thin) && p in t.info && t.info[p].level > 0 && s <= |t.pages[p].cells|
    ensures var c := Child(t.pages[p], s);
      && c in t.info && ParentOf(t.pages[c]) == p && t.info[c].listed && t.info[c].level + 1 == t.info[p].level
      && t.info[c].lo == SlotLo(t.pages[p], t.info[p].lo, s) && t.info[c].cover == SlotHi(t.pages[p], t.info[p].hi, s)
  {
    SlotAt(t, p, thin, s);
  }

  lemma BodyIsInternalOk(t: Tree, p: PageId, thin: PageId)
    requires p in t.info && p in t.pages && t.info[p].level > 0 && t.pages[p].Internal? && InternalOk(t, p, thin)
    ensures BodyOk(t, p, thin)
  {
  }

  // ------------------------------------------------------------ looking up

  /** The slot to descend into: the first one whose separator is above the key. */
  function SlotFor(cells: seq<InternalEntry>, k: Key): (s: nat)
    ensures s <= |cells|
    ensures forall j :: 0 <= j < s ==> !Lt(k, cells[j].key)
    ensures s < |cells| ==> Lt(k, cells[s].key)
  {
    if cells == [] || Lt(k, cells[0].key) then 0 else 1 + SlotFor(cells[1..], k)
  }

  function ValueOf(entries: seq<LeafEntry>, k: Key): (value: Option<Bytes>)
    ensures value.Some? ==> exists i :: 0 <= i < |entries| && entries[i] == LeafEntry(k, value.value)
    ensures value.None? ==> !HasKey(entries, k)
  {
    if entries == [] then None else if entries[0].key == k then Some(entries[0].value) else ValueOf(entries[1..], k)
  }

  /** What a search finds that begins at this page, so many levels above the leaves, whatever the pages hold. */
  function Lookup(pages: map<PageId, Page>, p: PageId, k: Key, level: nat): Option<Bytes>
    decreases level
  {
    if p !in pages then None
    else match pages[p]
      case Leaf(_, _, entries) => ValueOf(entries, k)
      case Internal(_, _, cells) => if level == 0 then None else Lookup(pages, Child(pages[p], SlotFor(cells, k)), k, level - 1)
      case _ => None
  }

  // ------------------------------------------------------------ what a rewrite does not touch

  /** Node q is the same in both trees, up to its place below its parent. */
  ghost predicate SameNode(t: Tree, t': Tree, q: PageId)
    requires q in t.info && q in t.pages
  {
    && q in t'.info && q in t'.pages
    && t'.info[q].level == t.info[q].level && t'.info[q].lo == t.info[q].lo && t'.info[q].hi == t.info[q].hi
    && t'.pages[q] == WithParent(t.pages[q], ParentOf(t'.pages[q]))
  }

  /** Page c is the same child in both trees. */
  ghost predicate SameChild(t: Tree, t': Tree, c: PageId)
    requires c in t.info && c in t.pages
  {
    && c in t'.info && c in t'.pages
    && ParentOf(t'.pages[c]) == ParentOf(t.pages[c])
    && t'.info[c].level == t.info[c].level && t'.info[c].lo == t.info[c].lo
    && t'.info[c].cover == t.info[c].cover && t'.info[c].listed == t.info[c].listed
  }

  /** Pages outside the tree do not matter to it. */
  lemma ShapeFrame(t: Tree, t': Tree, thin: PageId)
    requires Shaped(t, thin)
    requires t'.root == t.root && t'.info == t.info && t'.m == t.m
    requires forall p :: p in t.info ==> p in t'.pages && t'.pages[p] == t.pages[p]
    ensures Shaped(t', thin)
  {
    hide InternalOk, LeafOk, Lt, ValuesSize;
    forall q | q in t'.info ensures NodeOk(t', q, thin) {
      assert NodeOk(t, q, thin);
      if t.info[q].level == 0 {
        LeafFrame(t, t', q, thin, thin);
      } else {
        InternalFrame(t, t', q, thin, thin);
      }
      if q != t.root && t.info[q].listed {
        LinkFrame(t, t', q);
      }
    }
  }

  lemma LeafFrame(t: Tree, t': Tree, q: PageId, thin: PageId, thin': PageId)
    requires q in t.info && q in t.pages && BodyOk(t, q, thin) && t.info[q].level == 0
    requires SameNode(t, t', q) && t'.m == t.m
    requires var next := t.pages[q].next;
             next in t.info && t.info[next].level == 0 ==>
               next in t'.info && t'.info[next].level == 0 && t'.info[next].lo == t.info[next].lo
    ensures BodyOk(t', q, thin')
  {
  }

  lemma InternalFrame(t: Tree, t': Tree, q: PageId, thin: PageId, thin': PageId)
    requires q in t.info && q in t.pages && BodyOk(t, q, thin) && t.info[q].level > 0
    requires SameNode(t, t', q)
    requires thin' == thin || q != thin
    requires forall s: nat :: s <= |t.pages[q].cells| && SlotOk(t, q, s) ==> SameChild(t, t', Child(t.pages[q], s))
    ensures BodyOk(t', q, thin')
  {
    var n := t.pages[q];
    forall s: nat | s <= |n.cells| ensures SlotOk(t', q, s) {
      assert SlotOk(t, q, s);
      assert Child(t'.pages[q], s) == Child(n, s);
      assert SameChild(t, t', Child(n, s));
    }
  }

  /** A page stays linked when its parent's children do not change. */
  lemma LinkFrame(t: Tree, t': Tree, q: PageId)
    requires q in t.info && q in t.pages && Linked(t, q)
    requires q in t'.info && q in t'.pages && ParentOf(t'.pages[q]) == ParentOf(t.pages[q])
    requires t'.root == t.root && t'.info[q].listed == t.info[q].listed
    requires var up := ParentOf(t.pages[q]);
             up in t.info && up in t.pages ==> SameNode(t, t', up)
    ensures Linked(t', q)
  {
    if q != t.root && t.info[q].listed {
      var up := ParentOf(t.pages[q]);
      var s: nat :| s <= |t.pages[up].cells| && Child(t.pages[up], s) == q;
      assert Child(t'.pages[up], s) == q;
    }
  }

  // ------------------------------------------------------------ one leaf per key

  lemma SlotInside(n: Page, lo: Bound, hi: Bound, s: nat, k: Key)
    requires n.Internal? && s <= |n.cells| && CellsOk(lo, hi, n.cells)
    requires In(k, SlotLo(n, lo, s), SlotHi(n, hi, s))
    ensures In(k, lo, hi)
  {
    hide Lt, ValuesSize;
    OrderLaws();
  }

  lemma SlotsDisjoint(n: Page, lo: Bound, hi: Bound, s: nat, u: nat, k: Key)
    requires n.Internal? && s < u <= |n.cells| && CellsOk(lo, hi, n.cells)
    requires In(k, SlotLo(n, lo, s), SlotHi(n, hi, s))
    ensures !In(k, SlotLo(n, lo, u), SlotHi(n, hi, u))
  {
    hide Lt, ValuesSize;
    OrderLaws();
  }

  /** The slot of its parent that holds p. */
  lemma SlotOf(t: Tree, p: PageId, thin: PageId) returns (s: nat)
    requires ValidBut(t, thin) && p in t.info && p != t.root
    ensures var up := ParentOf(t.pages[p]);
      && up in t.info && t.info[up].level == t.info[p].level + 1
      && s <= |t.pages[up].cells| && Child(t.pages[up], s) == p
      && t.info[p].lo == SlotLo(t.pages[up], t.info[up].lo, s)
      && t.info[p].hi == SlotHi(t.pages[up], t.info[up].hi, s)
  {
    hide BodyOk, Lt, ValuesSize;
    assert NodeOk(t, p, thin);
    var up := ParentOf(t.pages[p]);
    s :| s <= |t.pages[up].cells| && Child(t.pages[up], s) == p;
    SlotFacts(t, up, thin, s);
  }

  lemma CellsFacts(t: Tree, p: PageId, thin: PageId)
    requires Shaped(t, thin) && p in t.info && t.info[p].level > 0
    ensures CellsOk(t.info[p].lo, t.info[p].hi, t.pages[p].cells)
    ensures |t.pages[p].cells| >= 1 || p == thin
  {
    hide Lt, ValuesSize;
    assert NodeOk(t, p, thin);
  }

  /** On each level, at most one page is responsible for a key. */
  lemma {:induction false} OnePage(t: Tree, p: PageId, q: PageId, k: Key, thin: PageId)
    requires ValidBut(t, thin) && p in t.info && q in t.info && t.info[p].level == t.info[q].level
    requires In(k, t.info[p].lo, t.info[p].hi) && In(k, t.info[q].lo, t.info[q].hi)
    ensures p == q
    decreases t.info[t.root].level - t.info[p].level
  {
    hide BodyOk, Lt, ValuesSize, CellsOk;
    assert NodeOk(t, p, thin) && NodeOk(t, q, thin);
    if p != t.root && q != t.root {
      var s := SlotOf(t, p, thin);
      var u := SlotOf(t, q, thin);
      var up, uq := ParentOf(t.pages[p]), ParentOf(t.pages[q]);
      CellsFacts(t, up, thin);
      CellsFacts(t, uq, thin);
      SlotInside(t.pages[up], t.info[up].lo, t.info[up].hi, s, k);
      SlotInside(t.pages[uq], t.info[uq].lo, t.info[uq].hi, u, k);
      OnePage(t, up, uq, k, thin);
      if s < u {
        SlotsDisjoint(t.pages[up], t.info[up].lo, t.info[up].hi, s, u, k);
      } else if u < s {
        SlotsDisjoint(t.pages[up], t.info[up].lo, t.info[up].hi, u, s, k);
      }
    }
  }

  // ------------------------------------------------------------ one page per upper bound

  predicate Reaches(lo: Bound, hi: Bound, h: Bound) { BoundLt(lo, h) && !BoundLt(hi, h) }

  lemma SlotReaches(n: Page, lo: Bound, hi: Bound, s: nat, h: Bound)
    requires n.Internal? && s <= |n.cells| && CellsOk(lo, hi, n.cells)
    requires Reaches(SlotLo(n, lo, s), SlotHi(n, hi, s), h) && BoundLt(lo, hi) && !lo.PosInf? && !hi.NegInf?
    ensures Reaches(lo, hi, h)
  {
    hide Lt, ValuesSize;
    OrderLaws();
  }

  lemma SlotsReachApart(n: Page, lo: Bound, hi: Bound, s: nat, u: nat, h: Bound)
    requires n.Internal? && s < u <= |n.cells| && CellsOk(lo, hi, n.cells)
    requires Reaches(SlotLo(n, lo, s), SlotHi(n, hi, s), h)
    ensures !Reaches(SlotLo(n, lo, u), SlotHi(n, hi, u), h)
  {
    hide Lt, ValuesSize;
    OrderLaws();
  }

  /** On each level, the interval just below a bound belongs to at most one page. */
  lemma {:induction false} OnePageBelow(t: Tree, p: PageId, q: PageId, h: Bound, thin: PageId)
    requires ValidBut(t, thin) && p in t.info && q in t.info && t.info[p].level == t.info[q].level
    requires Reaches(t.info[p].lo, t.info[p].hi, h) && Reaches(t.info[q].lo, t.info[q].hi, h)
    ensures p == q
    decreases t.info[t.root].level - t.info[p].level
  {
    hide BodyOk, Lt, ValuesSize, CellsOk, Reaches;
    assert NodeOk(t, p, thin) && NodeOk(t, q, thin);
    if p != t.root && q != t.root {
      var s := SlotOf(t, p, thin);
      var u := SlotOf(t, q, thin);
      var up, uq := ParentOf(t.pages[p]), ParentOf(t.pages[q]);
      CellsFacts(t, up, thin);
      CellsFacts(t, uq, thin);
      assert NodeOk(t, up, thin) && NodeOk(t, uq, thin);
      SlotReaches(t.pages[up], t.info[up].lo, t.info[up].hi, s, h);
      SlotReaches(t.pages[uq], t.info[uq].lo, t.info[uq].hi, u, h);
      OnePageBelow(t, up, uq, h, thin);
      if s < u {
        SlotsReachApart(t.pages[up], t.info[up].lo, t.info[up].hi, s, u, h);
      } else if u < s {
        SlotsReachApart(t.pages[up], t.info[up].lo, t.info[up].hi, u, s, h);
      }
    }
  }

  lemma SameHi(t: Tree, p: PageId, q: PageId, thin: PageId)
    requires ValidBut(t, thin) && p in t.info && q in t.info
    requires t.info[p].level == t.info[q].level && t.info[p].hi == t.info[q].hi
    ensures p == q
  {
    hide BodyOk, Lt, ValuesSize;
    assert NodeOk(t, p, thin) && NodeOk(t, q, thin);
    var h := t.info[p].hi;
    if h.At? {
      KeyOrder(h.key, h.key, h.key);
    }
    OnePageBelow(t, p, q, h, thin);
  }
}
