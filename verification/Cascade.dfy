/** What a cascade of splits leaves alone, and why it ends (src/btree/btree.cpp:185-330). */
module Cascade {
  import opened Keys
  import opened Pages
  import opened Wrappers
  import opened TreeShape
  import opened InsertSteps

  /** Nothing below level l changes, and on level l at most parent fields; pages that are new lie above. */
  ghost predicate SameUpTo(t: Tree, t': Tree, l: nat) {
    && t'.m == t.m
    && (forall p :: p in t.info ==> p in t'.info && t'.info[p].level == t.info[p].level)
    && (forall p :: p in t.info && p in t.pages && t.info[p].level <= l ==>
          && p in t'.pages && t'.info[p] == t.info[p]
          && t'.pages[p] == WithParent(t.pages[p], ParentOf(t'.pages[p]))
          && (t.info[p].level < l ==> t'.pages[p] == t.pages[p]))
    && (forall p :: p in t'.info && p !in t.info ==> t'.info[p].level > l)
  }

  lemma SameUpToTrans(t0: Tree, t1: Tree, t2: Tree, l: nat)
    requires SameUpTo(t0, t1, l) && SameUpTo(t1, t2, l)
    requires forall p :: p in t0.info ==> p in t0.pages
    ensures SameUpTo(t0, t2, l)
  {
  }

  lemma SameUpToKeeps(t0: Tree, t1: Tree, l: nat, p: PageId)
    requires SameUpTo(t0, t1, l) && p in t0.info
    ensures p in t1.info
  {
  }

  ghost predicate SettledAbove(t: Tree, l: nat) {
    forall p :: p in t.info && t.info[p].level > l ==> Settled(t.info[p])
  }

  /** The information once the right half is listed. */
  function Listed(info: map<PageId, Info>, left: PageId, right: PageId): map<PageId, Info>
    requires left in info && right in info
  {
    info[left := info[left].(cover := info[left].hi)][right := info[right].(listed := true)]
  }

  /** A split on level l followed by the listing of its right half. */
  lemma SplitThenListed(t0: Tree, t1: Tree, page: PageId, right: PageId, t2: Tree, l: nat)
    requires l > 0 && page in t1.info && right in t1.info && t1.info[page].level == t1.info[right].level == l
    requires forall p :: p in t0.info ==> p in t0.pages
    requires SameUpTo(t0, t1, l - 1) && SameUpTo(t1.(info := Listed(t1.info, page, right)), t2, l)
    ensures SameUpTo(t0, t2, l - 1)
    ensures (forall p :: p in t1.info && t1.info[p].level == l && p != page && p != right ==> Settled(t1.info[p]))
      && t1.info[right].cover == t1.info[right].hi && t1.info[page].listed && SettledAbove(t2, l) && (forall p :: p in t1.info ==> p in t1.pages)
      ==> SettledAbove(t2, l - 1)
  {
  }

  // ------------------------------------------------------------ the measure

  /** The separators of the node beyond the first. */
  ghost function Spare(t: Tree, p: PageId): nat {
    if p in t.info && p in t.pages && t.pages[p].Internal? && t.pages[p].cells != [] then |t.pages[p].cells| - 1 else 0
  }

  /** ... summed over the pages below n. */
  ghost function Slack(t: Tree, n: nat): nat {
    if n == 0 then 0 else Slack(t, n - 1) + Spare(t, n - 1)
  }

  lemma {:induction false} SlackSame(t: Tree, t': Tree, n: nat)
    requires forall p :: 0 <= p < n ==> Spare(t', p) == Spare(t, p)
    ensures Slack(t', n) == Slack(t, n)
  {
    if n > 0 {
      SlackSame(t, t', n - 1);
    }
  }

  lemma {:induction false} SlackChange(t: Tree, t': Tree, n: nat, p: PageId)
    requires 0 <= p < n && forall q :: 0 <= q < n && q != p ==> Spare(t', q) == Spare(t, q)
    ensures Slack(t', n) == Slack(t, n) - Spare(t, p) + Spare(t', p)
  {
    if p == n - 1 {
      SlackSame(t, t', n - 1);
    } else {
      SlackChange(t, t', n - 1, p);
    }
  }

  lemma {:induction false} SlackChange2(t: Tree, t': Tree, n: nat, p: PageId, r: PageId)
    requires 0 <= p < n && 0 <= r < n && p != r
    requires forall q :: 0 <= q < n && q != p && q != r ==> Spare(t', q) == Spare(t, q)
    ensures Slack(t', n) == Slack(t, n) - Spare(t, p) + Spare(t', p) - Spare(t, r) + Spare(t', r)
  {
    if p == n - 1 {
      SlackChange(t, t', n - 1, r);
    } else if r == n - 1 {
      SlackChange(t, t', n - 1, p);
    } else {
      SlackChange2(t, t', n - 1, p, r);
    }
  }

  /** Splitting a node uses up two spare separators: one is promoted, one becomes the right half's first. */
  lemma SplitSlack(t: Tree, p: PageId, r: PageId, mid: nat, n: nat, thin: PageId)
    requires Shaped(t, thin) && p in t.info && t.info[p].level > 0 && Settled(t.info[p])
    requires 1 <= mid <= |t.pages[p].cells| - 2
    requires r !in t.info && 0 < r < n && p < n
    ensures Slack(SplitInternal(t, p, r, mid), n) == Slack(t, n) - 2
  {
    hide Lt, ValuesSize, NodeOk;
    var t' := SplitInternal(t, p, r, mid);
    SplitSlot(t, p, r, mid, thin, 0);
    forall q | 0 <= q < n && q != p && q != r ensures Spare(t', q) == Spare(t, q) {
      if q in t.info {
        var right := Internal(t.pages[p].parent, t.pages[p].rightmost, t.pages[p].cells[mid + 1..]);
        MovedKids(t, p, mid, right, q, thin);
      }
    }
    SlackChange2(t, t', n, p, r);
  }

  /** Listing the right half adds one separator to the parent. */
  lemma LinkSlack(t: Tree, left: PageId, sep: Key, right: PageId, p: PageId, i: nat, n: nat)
    requires Shaped(t, INVALID_PAGE) && Pending(t, left, sep, right)
    requires p in t.info && t.info[p].level > 0 && p != right && p < n && i <= |t.pages[p].cells|
    requires Child(t.pages[p], i) == left && t.pages[p].cells != []
    ensures Slack(LinkRight(t, left, sep, right, p, i), n) == Slack(t, n) + 1
  {
    hide Lt, ValuesSize, NodeOk;
    var t' := LinkRight(t, left, sep, right, p, i);
    LinkedSlots(t.pages[p], i, left, sep, right);
    SlackChange(t, t', n, p);
  }

  /** A new root has no spare separator. */
  lemma GrowSlack(t: Tree, left: PageId, sep: Key, right: PageId, top: PageId, n: nat)
    requires Shaped(t, INVALID_PAGE) && Pending(t, left, sep, right)
    requires left == t.root && top !in t.info && 0 < top < n
    ensures Slack(GrowRoot(t, left, sep, right, top), n) == Slack(t, n)
  {
    hide Lt, ValuesSize, NodeOk;
    SlackSame(t, GrowRoot(t, left, sep, right, top), n);
  }

  /** Pages that do not belong to the tree add nothing. */
  lemma {:induction false} SlackExtend(t: Tree, t': Tree, n: nat, n': nat)
    requires n <= n' && t'.info == t.info && forall p :: p in t.info ==> p in t.pages && p in t'.pages && t'.pages[p] == t.pages[p]
    requires forall p :: p in t.info ==> p < n
    ensures Slack(t', n') == Slack(t, n)
  {
    if n == n' {
      SlackSame(t, t', n);
    } else {
      SlackExtend(t, t', n, n' - 1);
    }
  }

  // ------------------------------------------------------------ how the steps relate to the levels below

  lemma SplitSame(t: Tree, p: PageId, r: PageId, mid: nat, thin: PageId)
    requires Shaped(t, thin) && p in t.info && t.info[p].level > 0 && Settled(t.info[p])
    requires 1 <= mid <= |t.pages[p].cells| - 2 && r !in t.info && 0 < r
    ensures SameUpTo(t, SplitInternal(t, p, r, mid), t.info[p].level - 1)
  {
    hide Lt, ValuesSize, NodeOk;
    var t' := SplitInternal(t, p, r, mid);
    var right := Internal(t.pages[p].parent, t.pages[p].rightmost, t.pages[p].cells[mid + 1..]);
    forall q | q in t.info && t.info[q].level <= t.info[p].level - 1
      ensures q in t'.pages && t'.pages[q] == WithParent(t.pages[q], ParentOf(t'.pages[q]))
      ensures t.info[q].level < t.info[p].level - 1 ==> t'.pages[q] == t.pages[q]
    {
      MovedKids(t, p, mid, right, q, thin);
    }
  }

  lemma KidsInTree(t: Tree, p: PageId, thin: PageId)
    requires Shaped(t, thin) && p in t.info && t.info[p].level > 0
    ensures forall c :: c in Kids(t.pages[p]) ==> c in t.info && c != p
  {
    hide Lt, ValuesSize, NodeOk;
    forall c | c in Kids(t.pages[p]) ensures c in t.info && c != p {
      var s :| 0 <= s < |Kids(t.pages[p])| && Kids(t.pages[p])[s] == c;
      SlotFacts(t, p, thin, s);
    }
  }

  /** The split writes no page outside the tree. */
  lemma SplitOutside(t: Tree, p: PageId, r: PageId, mid: nat, thin: PageId)
    requires Shaped(t, thin) && p in t.info && t.info[p].level > 0 && mid < |t.pages[p].cells|
    ensures forall q :: q in t.pages && q !in t.info && q != r ==>
              q in SplitInternal(t, p, r, mid).pages && SplitInternal(t, p, r, mid).pages[q] == t.pages[q]
  {
    hide Lt, ValuesSize, NodeOk;
    var right := Internal(t.pages[p].parent, t.pages[p].rightmost, t.pages[p].cells[mid + 1..]);
    forall q | q in t.pages && q !in t.info && q != r
      ensures q in SplitInternal(t, p, r, mid).pages && SplitInternal(t, p, r, mid).pages[q] == t.pages[q]
    {
      MovedKids(t, p, mid, right, q, thin);
    }
  }

  /** What a split of an internal node leaves behind, seen from before its new page was allocated. */
  lemma Divided(t0: Tree, t1: Tree, p: PageId, r: PageId, mid: nat, n: nat)
    requires Shaped(t1, INVALID_PAGE) && p in t1.info && t1.info[p].level > 0 && SettledAbove(t1, t1.info[p].level - 1)
    requires t0.info == t1.info && t0.m == t1.m
    requires forall q :: q in t0.info ==> q in t0.pages && t1.pages[q] == t0.pages[q]
    requires 1 <= mid <= |t1.pages[p].cells| - 2 && r !in t1.info && 0 < r < n && p < n
    ensures var t2, l := SplitInternal(t1, p, r, mid), t1.info[p].level;
      && Shaped(t2, INVALID_PAGE) && Pending(t2, p, t1.pages[p].cells[mid].key, r)
      && p in t2.info && t2.info[p].level == l && SettledAbove(t2, l)
      && (forall q :: q in t2.info && t2.info[q].level == l && q != p && q != r ==> Settled(t2.info[q]))
      && SameUpTo(t0, t2, l - 1) && Slack(t2, n) == Slack(t1, n) - 2
      && t2.root == t1.root && t2.m == t1.m && t2.info.Keys == t1.info.Keys + {r}
      && (forall q :: q in t1.pages && q !in t1.info && q != r ==> q in t2.pages && t2.pages[q] == t1.pages[q])
  {
    hide Lt, ValuesSize, NodeOk, Slack, SmallKey;
    SplitInternalKeeps(t1, p, r, mid, INVALID_PAGE);
    SplitSlack(t1, p, r, mid, n, INVALID_PAGE);
    SplitSame(t1, p, r, mid, INVALID_PAGE);
    SplitOutside(t1, p, r, mid, INVALID_PAGE);
  }

  // ------------------------------------------------------------ finding the parent's slot

  /** The slot of its parent that holds p; a page without a parent is the root. */
  lemma ListedSlot(t: Tree, p: PageId) returns (s: nat)
    requires Shaped(t, INVALID_PAGE) && p in t.info && t.info[p].listed
    ensures ParentOf(t.pages[p]) == INVALID_PAGE <==> p == t.root
    ensures p != t.root ==>
      var up := ParentOf(t.pages[p]);
      && up in t.info && t.info[up].level == t.info[p].level + 1 && t.pages[up].Internal?
      && |t.pages[up].cells| >= 1 && CellsOk(t.info[up].lo, t.info[up].hi, t.pages[up].cells)
      && s <= |t.pages[up].cells| && Child(t.pages[up], s) == p
      && t.info[p].lo == SlotLo(t.pages[up], t.info[up].lo, s)
      && t.info[p].cover == SlotHi(t.pages[up], t.info[up].hi, s)
  {
    hide Lt, ValuesSize, BodyOk, CellsOk;
    assert NodeOk(t, p, INVALID_PAGE);
    s := 0;
    if p != t.root {
      var up := ParentOf(t.pages[p]);
      s :| s <= |t.pages[up].cells| && Child(t.pages[up], s) == p;
      assert HasPage(t, up);
      SlotFacts(t, up, INVALID_PAGE, s);
      CellsFacts(t, up, INVALID_PAGE);
    }
  }

  /** The new separator sorts exactly into the slot of the page that was split. */
  lemma SeparatorPlace(t: Tree, left: PageId, sep: Key, right: PageId, n: Page, lo: Bound, hi: Bound, s: nat)
    requires Shaped(t, INVALID_PAGE) && Pending(t, left, sep, right)
    requires n.Internal? && CellsOk(lo, hi, n.cells) && s <= |n.cells|
    requires t.info[left].lo == SlotLo(n, lo, s) && t.info[left].cover == SlotHi(n, hi, s)
    ensures forall j :: 0 <= j < s ==> Lt(n.cells[j].key, sep)
    ensures forall j :: s <= j < |n.cells| ==> Lt(sep, n.cells[j].key) && !Lt(n.cells[j].key, sep)
  {
    hide Lt, ValuesSize, BodyOk;
    assert NodeOk(t, left, INVALID_PAGE) && NodeOk(t, right, INVALID_PAGE);
    OrderLaws();
  }

  /** What linking the right half into its parent leaves behind. */
  lemma LinkedIn(t: Tree, left: PageId, sep: Key, right: PageId, p: PageId, i: nat, n: nat)
    requires Shaped(t, INVALID_PAGE) && Pending(t, left, sep, right) && SettledAbove(t, t.info[left].level)
    requires p in t.info && t.info[p].level == t.info[left].level + 1 && i <= |t.pages[p].cells| && p < n
    requires Child(t.pages[p], i) == left && t.pages[p].cells != []
    ensures var t', l := LinkRight(t, left, sep, right, p, i), t.info[left].level;
      && Shaped(t', INVALID_PAGE) && SettledAbove(t', l) && t'.root == t.root && t'.info.Keys == t.info.Keys
      && SameUpTo(t.(info := Listed(t.info, left, right)), t', l)
      && Slack(t', n) == Slack(t, n) + 1 && t'.info[p] == t.info[p] && |t'.pages[p].cells| >= 1
      && t'.pages[p] == LinkedNode(t.pages[p], i, left, sep, right)
      && (forall q :: q in t.pages && q !in t.info ==> q in t'.pages && t'.pages[q] == t.pages[q])
  {
    hide Lt, ValuesSize, NodeOk, Slack;
    LinkRightKeeps(t, left, sep, right, p, i, INVALID_PAGE);
    LinkSlack(t, left, sep, right, p, i, n);
    LinkedSlots(t.pages[p], i, left, sep, right);
  }

  /** What a new root leaves behind, seen from before its page was allocated. */
  lemma Grown(t0: Tree, t1: Tree, left: PageId, sep: Key, right: PageId, top: PageId, n: nat)
    requires Shaped(t1, INVALID_PAGE) && Pending(t1, left, sep, right) && SettledAbove(t1, t1.info[left].level)
    requires t0.info == t1.info && t0.m == t1.m
    requires forall q :: q in t0.info ==> q in t0.pages && t1.pages[q] == t0.pages[q]
    requires left == t1.root && top !in t1.info && 0 < top < n
    ensures var t', l := GrowRoot(t1, left, sep, right, top), t1.info[left].level;
      && Shaped(t', INVALID_PAGE) && SettledAbove(t', l) && t'.info.Keys == t1.info.Keys + {top}
      && SameUpTo(t0.(info := Listed(t0.info, left, right)), t', l)
      && Slack(t', n) == Slack(t1, n)
      && (forall q :: q in t1.pages && q !in t1.info && q != top ==> q in t'.pages && t'.pages[q] == t1.pages[q])
  {
    hide Lt, ValuesSize, NodeOk, Slack;
    GrowRootKeeps(t1, left, sep, right, top);
    GrowSlack(t1, left, sep, right, top, n);
  }

  /** A cascade above level l commutes with the listing of a page on level l. */
  lemma SameUpToListed(t0: Tree, t1: Tree, l: nat, left: PageId, right: PageId)
    requires SameUpTo(t0, t1, l) && left in t0.info && right in t0.info
    requires forall p :: p in t0.info ==> p in t0.pages
    requires t0.info[left].level == l && t0.info[right].level == l
    ensures SameUpTo(t0.(info := Listed(t0.info, left, right)), t1.(info := Listed(t1.info, left, right)), l)
  {
  }

  // ------------------------------------------------------------ the split of a leaf

  /** What a split of a leaf leaves behind, seen from before its new page was allocated. */
  lemma DividedLeaf(t1: Tree, p: PageId, r: PageId, mid: nat)
    requires Valid(t1) && p in t1.info && t1.info[p].level == 0
    requires 0 < mid < |t1.pages[p].entries| && r !in t1.info && 0 < r
    ensures var t2 := SplitLeaf(t1, p, r, mid);
      && Shaped(t2, INVALID_PAGE) && Pending(t2, p, t1.pages[p].entries[mid].key, r) && SettledAbove(t2, 0)
      && p in t2.info && t2.info[p].level == 0 && t2.info[p].lo == t1.info[p].lo
      && r in t2.info && t2.info[r].level == 0 && t2.info[r].hi == t1.info[p].hi
      && (forall q :: q in t2.info && q != p && q != r ==> Settled(t2.info[q]))
      && t2.root == t1.root && t2.m == t1.m && t2.info.Keys == t1.info.Keys + {r}
      && (forall q :: q in t1.pages && q !in t1.info && q != r ==> q in t2.pages && t2.pages[q] == t1.pages[q])
  {
    hide Lt, ValuesSize, NodeOk, SmallKey;
    SplitLeafKeeps(t1, p, r, mid, INVALID_PAGE);
  }

  lemma LeafSplitSettles(t: Tree, p: PageId, r: PageId, t': Tree)
    requires p in t.info && r in t.info && t.info[p].level == 0 && t.info[r].level == 0
    requires t.info[p].listed && t.info[r].cover == t.info[r].hi
    requires forall q :: q in t.info && q != p && q != r ==> Settled(t.info[q])
    requires forall q :: q in t.info ==> q in t.pages
    requires SameUpTo(t.(info := Listed(t.info, p, r)), t', 0) && SettledAbove(t', 0) && Shaped(t', INVALID_PAGE)
    ensures Valid(t') && t'.m == t.m && t.info.Keys <= t'.info.Keys && t'.info[p].hi == t.info[p].hi
  {
    hide NodeOk;
    forall q | q in t.info ensures q in t'.info {
      assert q in Listed(t.info, p, r);
    }
  }

  // ------------------------------------------------------------ the way down

  /** The pages above p, root first. */
  predicate PathOk(t: Tree, p: PageId, path: seq<PageId>)
    decreases |path|
  {
    p in t.pages &&
    if p == t.root then path == []
    else
      && path != [] && path[|path| - 1] == ParentOf(t.pages[p])
      && PathOk(t, path[|path| - 1], path[..|path| - 1])
  }

  /** One step down. */
  lemma Descend(t: Tree, p: PageId, path: seq<PageId>, s: nat, k: Key)
    requires Valid(t) && p in t.info && t.info[p].level > 0 && PathOk(t, p, path)
    requires In(k, t.info[p].lo, t.info[p].hi) && s <= |t.pages[p].cells|
    requires forall j :: 0 <= j < s ==> !Lt(k, t.pages[p].cells[j].key)
    requires s < |t.pages[p].cells| ==> Lt(k, t.pages[p].cells[s].key)
    ensures var c := Child(t.pages[p], s);
      && c in t.info && t.info[c].level + 1 == t.info[p].level && In(k, t.info[c].lo, t.info[c].hi)
      && PathOk(t, c, path + [p])
  {
    hide Lt, ValuesSize, NodeOk;
    SlotFacts(t, p, INVALID_PAGE, s);
    assert (path + [p])[..|path|] == path;
  }

  /** One step down from any page, for any key: the child's interval holds the key if and only if the page's does. */
  lemma DescendFrom(t: Tree, p: PageId, s: nat, k: Key)
    requires Valid(t) && p in t.info && t.info[p].level > 0 && s <= |t.pages[p].cells|
    requires forall j :: 0 <= j < s ==> !Lt(k, t.pages[p].cells[j].key)
    requires s < |t.pages[p].cells| ==> Lt(k, t.pages[p].cells[s].key)
    ensures var c := Child(t.pages[p], s);
      c in t.info && t.info[c].level + 1 == t.info[p].level && (In(k, t.info[c].lo, t.info[c].hi) <==> In(k, t.info[p].lo, t.info[p].hi))
  {
    hide Lt, ValuesSize;
    OrderLaws();
    SlotFacts(t, p, INVALID_PAGE, s);
    assert NodeOk(t, p, INVALID_PAGE);
    hide Linked, RankOk, SlotOk, RootOk;
    assert CellsOk(t.info[p].lo, t.info[p].hi, t.pages[p].cells);
  }

  /** On a valid tree, a search that begins at a page finds what the map has in the page's interval. */
  lemma {:induction false} LookupFinds(t: Tree, p: PageId, k: Key)
    requires Valid(t) && p in t.info
    ensures Lookup(t.pages, p, k, t.info[p].level) == if k in t.m && In(k, t.info[p].lo, t.info[p].hi) then Some(t.m[k]) else None
    decreases t.info[p].level
  {
    hide Lt, ValuesSize, SmallEntry;
    assert NodeOk(t, p, INVALID_PAGE);
    if t.info[p].level > 0 {
      hide NodeOk, In;
      var s := SlotFor(t.pages[p].cells, k);
      DescendFrom(t, p, s, k);
      LookupFinds(t, Child(t.pages[p], s), k);
    }
  }

  /** The root alone is responsible for every key. */
  lemma OnlyTheRootHasAll(t: Tree, p: PageId)
    requires Valid(t) && p in t.info
    ensures p == t.root <==> t.info[p].lo.NegInf? && t.info[p].hi.PosInf?
  {
    hide Lt, ValuesSize;
    assert NodeOk(t, p, INVALID_PAGE);
    if p != t.root {
      var q := ParentOf(t.pages[p]);
      assert NodeOk(t, q, INVALID_PAGE);
      var s: nat :| s <= |t.pages[q].cells| && Child(t.pages[q], s) == p;
      SlotFacts(t, q, INVALID_PAGE, s);
    }
  }

  /** The key that ends the page's interval, the first one beyond it, is in the map. */
  ghost predicate Overlooks(t: Tree, p: PageId) {
    p in t.info && t.info[p].hi.At? && t.info[p].hi.key in t.m
  }

  /** A tree whose root is a leaf has no other leaf. */
  lemma LeafRoot(t: Tree, leaf: PageId)
    requires Valid(t) && leaf in t.info && t.info[leaf].level == 0
    ensures t.info[t.root].level == 0 ==> leaf == t.root
  {
    hide Lt, ValuesSize;
    assert NodeOk(t, leaf, INVALID_PAGE);
  }
}
