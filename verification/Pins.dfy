/** The B+ tree as a client of the buffer pool: which pages it pins, and when (src/btree/btree.cpp:32-944,
    src/btree/free_list_manager.cpp:23-76, src/wal/wal_manager.cpp:65-69).

    Only the traffic with the pool is kept.  What the pages hold is left open: which page is visited next,
    what is written, which branch is taken and how often a loop runs are arbitrary choices, so that the
    results hold for every tree, and even for a damaged one.

    A page is used through the slot its fetch returned.  The slot may be used after the pin is given back, to
    log what was written, only as long as the frame still holds that page.

    `depth` bounds how deep the calls that climb the tree may nest.
 */
module PinDiscipline {
  import opened Pages
  import opened Wrappers
  import opened Buffering

  /** At least n slots are not taken by pinned pages. */
  ghost predicate Room(s: Pool, n: nat) {
    |PinnedPages(s)| + n <= |s.meta|
  }

  /** Pages pinned before are still in their frames. */
  ghost predicate FramesStay(s: Pool, s': Pool) {
    forall p {:trigger PinsOn(s, p)} :: PinsOn(s, p) > 0 ==> p in s.table && p in s'.table && s'.table[p] == s.table[p]
  }

  /** What an operation leaves behind: every pin count is as it was, pinned pages did not move, no page is
      left in the middle of a change that was not before, and the file has not shrunk. */
  ghost predicate Kept(s: Pool, s': Pool) {
    && SamePins(s, s') && PinnedPages(s') == PinnedPages(s) && FramesStay(s, s')
    && s'.changed <= s.changed && |s.file| <= |s'.file| && |s.meta| == |s'.meta|
  }

  lemma RoomMeans(s: Pool)
    requires Consistent(s) && Room(s, 1)
    ensures !AllPinned(s)
  {
    FreeSlotIff(s);
  }

  lemma PinnedMeans(s: Pool, p: PageId)
    ensures p in PinnedPages(s) <==> PinsOn(s, p) > 0
  {
  }

  lemma SamePinned(s: Pool, s': Pool)
    requires SamePins(s, s')
    ensures PinnedPages(s') == PinnedPages(s)
  {
    hide PinsOn;
    forall p ensures p in PinnedPages(s') <==> p in PinnedPages(s) {
      PinnedMeans(s, p);
      PinnedMeans(s', p);
    }
  }

  /** One more pin takes at most one slot. */
  lemma OneMorePinned(s: Pool, s': Pool, p: PageId)
    requires OneMorePin(s, s', p)
    ensures |PinnedPages(s')| <= |PinnedPages(s)| + 1
  {
    hide PinsOn;
    forall q ensures q in PinnedPages(s') <==> q in PinnedPages(s) || q == p {
      PinnedMeans(s, q);
      PinnedMeans(s', q);
    }
    assert PinnedPages(s') == PinnedPages(s) + {p};
  }

  lemma ChangedIsPinned(s: Pool, p: PageId)
    requires Consistent(s) && p in s.changed
    ensures PinsOn(s, p) > 0
  {
    assert FrameOk(s, s.table[p]);
  }

  /** Two pages pinned one after the other, and given back in the same order. */
  lemma TwoPinsGone(a: Pool, b: Pool, c: Pool, d: Pool, e: Pool, f: Pool, p: PageId, q: PageId)
    requires OneMorePin(a, b, p) && OneMorePin(b, c, q) && SamePins(c, d) && OneMorePin(e, d, p) && OneMorePin(f, e, q)
    ensures SamePins(a, f)
  {
    hide PinsOn;
    forall x ensures PinsOn(f, x) == PinsOn(a, x) {
    }
  }

  lemma StayMeans(s: Pool, s': Pool)
    requires PinnedStay(s, s')
    ensures FramesStay(s, s')
  {
  }

  lemma KeptTrans(a: Pool, b: Pool, c: Pool)
    requires Kept(a, b) && Kept(b, c)
    ensures Kept(a, c)
  {
    hide PinsOn;
    forall p | PinsOn(a, p) > 0 ensures p in c.table && c.table[p] == a.table[p] {
      assert PinsOn(b, p) > 0;
    }
  }

  lemma KeptSelf(s: Pool)
    ensures Kept(s, s)
  {
  }

  /** A page that was pinned before keeps a pin when the new ones go. */
  lemma StillPinned(a: Pool, b: Pool, c: Pool, d: Pool, p: PageId, q: PageId)
    requires OneMorePin(a, b, p) && OneMorePin(b, c, q) && SamePins(c, d)
    ensures PinsOn(a, q) > 0 ==> PinsOn(d, q) > 1
  {
    hide PinsOn;
    assert PinsOn(b, q) >= PinsOn(a, q);
  }

  /** From before the two pins to after them. */
  lemma AllStay(a: Pool, b: Pool, c: Pool, d: Pool, f: Pool, p: PageId, q: PageId)
    requires OneMorePin(a, b, p) && FramesStay(a, b) && OneMorePin(b, c, q) && FramesStay(b, c)
    requires forall x {:trigger PinsOn(c, x)} :: PinsOn(c, x) > 0 ==> x in d.table && x in c.table && d.table[x] == c.table[x]
    requires f.table == d.table && SamePins(a, f)
    ensures FramesStay(a, f) && PinnedPages(f) == PinnedPages(a)
  {
    SamePinned(a, f);
    hide PinsOn;
    forall x | PinsOn(a, x) > 0 ensures x in f.table && x in a.table && f.table[x] == a.table[x] {
      assert PinsOn(b, x) > 0;
      assert PinsOn(c, x) > 0;
    }
  }

  /** A page pinned before another one, and that one, stay in their frames while others come and go. */
  lemma TwoStay(b: Pool, c: Pool, w: Pool, d: Pool, p: PageId, q: PageId)
    requires PinsOn(b, p) > 0 && FramesStay(b, c) && OneMorePin(b, c, q) && SamePins(c, w) && w.table == c.table && Kept(w, d)
    ensures p in b.table && p in d.table && d.table[p] == b.table[p] && PinsOn(d, p) > 0
    ensures q in c.table && q in d.table && d.table[q] == c.table[q] && PinsOn(d, q) > 0
    ensures p == q ==> PinsOn(d, p) > 1
    ensures SamePins(c, d)
    ensures forall x {:trigger PinsOn(c, x)} :: PinsOn(c, x) > 0 ==> x in d.table && x in c.table && d.table[x] == c.table[x]
  {
    InTable(c);
    hide PinsOn;
    forall x | PinsOn(c, x) > 0 ensures x in d.table && x in c.table && d.table[x] == c.table[x] {
      assert PinsOn(w, x) > 0;
    }
    assert PinsOn(c, p) > 0 && PinsOn(c, q) > 0;
  }

  lemma InTable(s: Pool)
    ensures forall p {:trigger PinsOn(s, p)} :: PinsOn(s, p) > 0 ==> p in s.table
  {
  }

  lemma BothPinned(a: Pool, b: Pool, c: Pool, p: PageId, q: PageId)
    requires OneMorePin(a, b, p) && OneMorePin(b, c, q) && p != q && PinsOn(a, p) == PinsOn(a, q) == 0
    ensures |PinnedPages(c)| == |PinnedPages(a)| + 2
    ensures PinsOn(c, p) == PinsOn(c, q) == 1 && forall x :: x != p && x != q ==> PinsOn(c, x) == PinsOn(a, x)
  {
    hide PinsOn;
    forall x ensures PinsOn(c, x) == PinsOn(a, x) + if x == p || x == q then 1 else 0 {
      assert PinsOn(c, x) == PinsOn(b, x) + if x == q then 1 else 0;
    }
    forall x ensures x in PinnedPages(c) <==> x in PinnedPages(a) || x == p || x == q {
      PinnedMeans(a, x);
      PinnedMeans(c, x);
    }
    PinnedMeans(a, p);
    PinnedMeans(a, q);
    assert PinnedPages(c) == PinnedPages(a) + {p, q};
  }

  lemma AllPinnedMeans(s: Pool, p: PageId)
    requires Consistent(s) && AllPinned(s) && PinsOn(s, p) == 0
    ensures p !in s.table
  {
  }

  class TreeClient {
    const pool: BufferPool

    ghost function S(): Pool
      reads pool, pool.disk, pool.frames, pool.meta
    {
      pool.S()
    }

    /** The pool is in order, has n slots to spare, and the file has pages. */
    ghost predicate Ready(n: nat)
      reads pool, pool.disk, pool.frames, pool.meta
    {
      pool.Valid() && Room(S(), n) && 0 < |pool.disk.file|
    }

    constructor (pool: BufferPool)
      ensures this.pool == pool
    {
      this.pool := pool;
    }

    /** Some page of the file. */
    method AnyPage() returns (p: PageId)
      requires 0 < |pool.disk.file|
      ensures 0 <= p < |pool.disk.file|
    {
      p :| 0 <= p < |pool.disk.file|;
    }

    // ---------------------------------------------------------- the pool's operations

    method Fetch(p: PageId) returns (slot: nat)
      requires Ready(1) && 0 <= p < |pool.disk.file|
      modifies pool, pool.frames, pool.meta, pool.disk
      ensures pool.Valid() && OneMorePin(old(S()), S(), p) && FramesStay(old(S()), S())
      ensures |PinnedPages(S())| <= old(|PinnedPages(S())|) + 1
      ensures pool.changed == old(pool.changed) && |pool.disk.file| == old(|pool.disk.file|)
      ensures PinsOn(S(), p) > 0 && pool.pageTable[p] == slot < pool.meta.Length
    {
      hide FrameOk, Consistent, PinnedStay;
      RoomMeans(S());
      ghost var s := S();
      var result := pool.FetchPage(p);
      assert |View(S())| == |View(s)|;
      slot := result.slot;
      OneMorePinned(s, S(), p);
      StayMeans(s, S());
    }

    /** FreeListManager::allocate_page: the head of the free list, or a new page at the end of the file. */
    method AllocatePage() returns (p: PageId, slot: nat)
      requires Ready(1)
      modifies pool, pool.frames, pool.meta, pool.disk
      ensures pool.Valid() && OneMorePin(old(S()), S(), p) && FramesStay(old(S()), S())
      ensures |PinnedPages(S())| <= old(|PinnedPages(S())|) + 1
      ensures pool.changed == old(pool.changed) && |pool.disk.file| >= old(|pool.disk.file|)
      ensures PinsOn(S(), p) > 0 && pool.pageTable[p] == slot < pool.meta.Length
    {
      hide FrameOk, Consistent, PinnedStay;
      var reuse: bool := *;
      if reuse {
        p := AnyPage();
        slot := Fetch(p);
        return;
      }
      RoomMeans(S());
      ghost var s := S();
      var result;
      p, result := pool.NewPage();
      assert |View(S())| == |View(s)| + 1;
      slot := result.slot;
      OneMorePinned(s, S(), p);
      StayMeans(s, S());
    }

    /** The client writes something into a page it has pinned. */
    method Write(p: PageId)
      requires pool.Valid() && PinsOn(S(), p) > 0
      modifies pool`changed, pool.frames
      ensures pool.Valid() && SamePins(old(S()), S()) && pool.changed == old(pool.changed) + {p}
    {
      hide FrameOk, Consistent;
      var page: Page := *;
      pool.WriteThrough(p, page);
    }

    method Unpin(p: PageId, dirty: bool)
      requires pool.Valid() && PinsOn(S(), p) > 0
      requires p in pool.changed && !dirty ==> PinsOn(S(), p) > 1
      modifies pool`changed, pool.meta
      ensures pool.Valid() && OneMorePin(S(), old(S()), p)
      ensures pool.changed == if dirty then old(pool.changed) - {p} else old(pool.changed)
    {
      hide FrameOk, LruOk;
      UnpinnedPins(S(), p, dirty);
      pool.UnpinPage(p, dirty);
    }

    /** Both pages are written to; q was pinned after p. */
    method WriteBoth(ghost before: Pool, p: PageId, q: PageId)
      requires pool.Valid() && PinsOn(before, p) > 0 && OneMorePin(before, S(), q)
      modifies pool`changed, pool.frames
      ensures pool.Valid() && SamePins(old(S()), S()) && PinnedPages(S()) == old(PinnedPages(S()))
      ensures pool.changed == old(pool.changed) + {p, q}
    {
      hide FrameOk, Consistent, PinsOn;
      assert PinsOn(S(), p) == PinsOn(before, p) + if q == p then 1 else 0;
      assert PinsOn(S(), q) == PinsOn(before, q) + 1;
      Write(q);
      assert PinsOn(S(), p) > 0;
      Write(p);
      SamePinned(old(S()), S());
    }

    /** Only p is written to; q was pinned after p. */
    method WriteFirst(ghost before: Pool, p: PageId, q: PageId)
      requires pool.Valid() && PinsOn(before, p) > 0 && OneMorePin(before, S(), q)
      modifies pool`changed, pool.frames
      ensures pool.Valid() && SamePins(old(S()), S()) && PinnedPages(S()) == old(PinnedPages(S()))
      ensures pool.changed == old(pool.changed) + {p}
    {
      hide FrameOk, Consistent, PinsOn;
      assert PinsOn(S(), p) == PinsOn(before, p) + if q == p then 1 else 0;
      Write(p);
      SamePinned(old(S()), S());
    }

    /** Both pins are given back; a client that did not write to q need not say that q is dirty. */
    method UnpinBoth(p: PageId, q: PageId, dirty: bool) returns (ghost between: Pool)
      requires pool.Valid() && PinsOn(S(), p) > 0 && PinsOn(S(), q) > 0 && (p == q ==> PinsOn(S(), p) > 1)
      requires q in pool.changed && q != p && !dirty ==> PinsOn(S(), q) > 1
      modifies pool`changed, pool.meta
      ensures pool.Valid() && OneMorePin(between, old(S()), p) && OneMorePin(S(), between, q)
      ensures pool.changed == old(pool.changed) - {p} - if dirty then {q} else {}
    {
      hide FrameOk, Consistent, PinsOn;
      Unpin(p, true);
      between := S();
      assert PinsOn(old(S()), q) == PinsOn(S(), q) + if q == p then 1 else 0;
      Unpin(q, dirty);
    }

    /** WALManager::write copies the page out of its frame, usually after its pin was given back: the frame
        must still be that page's, and then the image logged is the page's latest contents. */
    method Log(p: PageId, slot: nat) returns (image: Page)
      requires pool.Valid() && p in pool.pageTable && pool.pageTable[p] == slot < pool.meta.Length
      ensures 0 <= p < |pool.disk.file| && image == View(S())[p]
    {
      LoadedIsLatest(S(), p);
      image := pool.frames[slot];
    }

    // ---------------------------------------------------------- one page at a time

    /** A page is looked at. */
    method Visit(p: PageId)
      requires Ready(1) && 0 <= p < |pool.disk.file|
      modifies pool, pool.frames, pool.meta, pool.disk
      ensures pool.Valid() && Kept(old(S()), S())
    {
      hide FrameOk, Consistent, PinsOn;
      ghost var s := S();
      if p in pool.changed {
        ChangedIsPinned(S(), p);
      }
      var _ := Fetch(p);
      Unpin(p, false);
      SamePinned(s, S());
    }

    /** A page is overwritten. */
    method Overwrite(p: PageId) returns (slot: nat)
      requires Ready(1) && 0 <= p < |pool.disk.file|
      modifies pool, pool.frames, pool.meta, pool.disk
      ensures pool.Valid() && Kept(old(S()), S())
      ensures p in pool.pageTable && pool.pageTable[p] == slot < pool.meta.Length
    {
      hide FrameOk, Consistent;
      slot := Fetch(p);
      Write(p);
      Unpin(p, true);
      SamePinned(old(S()), S());
    }

    /** A page is rewritten, and logged after its pin was given back. */
    method Rewrite(p: PageId)
      requires Ready(1) && 0 <= p < |pool.disk.file|
      modifies pool, pool.frames, pool.meta, pool.disk
      ensures pool.Valid() && Kept(old(S()), S())
    {
      hide FrameOk, Consistent, PinsOn, Kept;
      var slot := Overwrite(p);
      var _ := Log(p, slot);
    }

    /** FreeListManager::free_page: the page is logged while it is pinned. */
    method FreePage(p: PageId)
      requires Ready(1) && 0 <= p < |pool.disk.file|
      modifies pool, pool.frames, pool.meta, pool.disk
      ensures pool.Valid() && Kept(old(S()), S())
    {
      hide FrameOk, Consistent;
      var slot := Fetch(p);
      Write(p);
      var _ := Log(p, slot);
      Unpin(p, true);
      SamePinned(old(S()), S());
    }

    /** A new page that is a root: of an empty tree, or above a root that was split. */
    method WriteNewRoot() returns (root: PageId)
      requires Ready(1)
      modifies pool, pool.frames, pool.meta, pool.disk
      ensures pool.Valid() && Kept(old(S()), S())
      ensures 0 <= root < |pool.disk.file|
    {
      hide FrameOk, Consistent;
      var slot;
      root, slot := AllocatePage();
      Write(root);
      Unpin(root, true);
      var _ := Log(root, slot);
      SamePinned(old(S()), S());
    }

    /** The children of a node that moved get their new parent. */
    method AdoptChildren()
      requires Ready(1)
      modifies pool, pool.frames, pool.meta, pool.disk
      ensures pool.Valid() && Kept(old(S()), S())
    {
      hide FrameOk, Consistent, PinsOn;
      KeptSelf(S());
      var n :| 0 <= n;
      for i := 0 to n
        invariant Ready(1) && Kept(old(S()), S())
      {
        var child := AnyPage();
        ghost var s := S();
        Rewrite(child);
        KeptTrans(old(S()), s, S());
      }
    }

    /** WALManager::commit, the copy-back: each logged page is overwritten with its image. */
    method CopyBack()
      requires Ready(1)
      modifies pool, pool.frames, pool.meta, pool.disk
      ensures pool.Valid() && Kept(old(S()), S())
    {
      hide FrameOk, Consistent, PinsOn;
      KeptSelf(S());
      var n :| 0 <= n;
      for i := 0 to n
        invariant Ready(1) && Kept(old(S()), S())
      {
        var p := AnyPage();
        ghost var s := S();
        var _ := Overwrite(p);
        KeptTrans(old(S()), s, S());
      }
    }

    /** Three slots are needed: when only two are left, a split that pins its two halves runs out at the
        first child that is not pinned by somebody, and the throw leaves both halves pinned. */
    method TwoSlotsAreNotEnough(p: PageId, q: PageId, child: PageId) returns (result: Buffering.Fetch)
      requires Ready(2) && |PinnedPages(S())| + 2 == |S().meta|
      requires 0 <= p < |pool.disk.file| && 0 <= q < |pool.disk.file|
      requires p != q && PinsOn(S(), p) == PinsOn(S(), q) == 0
      requires child != p && child != q && PinsOn(S(), child) == 0
      modifies pool, pool.frames, pool.meta, pool.disk
      ensures result == NoFreeSlot && PinsOn(S(), p) == PinsOn(S(), q) == 1
    {
      hide FrameOk, Consistent, FramesStay;
      ghost var a := S();
      var _ := Fetch(p);
      ghost var b := S();
      var _ := Fetch(q);
      ghost var c := S();
      BothPinned(a, b, c, p, q);
      FreeSlotIff(c);
      AllPinnedMeans(c, child);
      result := pool.FetchPage(child);
    }

    // ---------------------------------------------------------- descents and scans

    method FindLeafPage() returns (leaf: PageId)
      requires Ready(1)
      modifies pool, pool.frames, pool.meta, pool.disk
      ensures pool.Valid() && Kept(old(S()), S())
      ensures 0 <= leaf < |pool.disk.file|
    {
      hide FrameOk, Consistent, PinsOn;
      var levels :| 0 <= levels;
      leaf := AnyPage();
      Visit(leaf);
      for i := 0 to levels
        invariant Ready(1) && Kept(old(S()), S()) && 0 <= leaf < |pool.disk.file|
      {
        leaf := AnyPage();
        ghost var s := S();
        Visit(leaf);
        KeptTrans(old(S()), s, S());
      }
    }

    method Search()
      requires Ready(1)
      modifies pool, pool.frames, pool.meta, pool.disk
      ensures pool.Valid() && Kept(old(S()), S())
    {
      hide FrameOk, Consistent, PinsOn;
      var leaf := FindLeafPage();
      ghost var s := S();
      Visit(leaf);
      KeptTrans(old(S()), s, S());
    }

    /** All four scans: a descent to a leaf, and a walk along the chain. */
    method Scan()
      requires Ready(1)
      modifies pool, pool.frames, pool.meta, pool.disk
      ensures pool.Valid() && Kept(old(S()), S())
    {
      hide FrameOk, Consistent, PinsOn;
      var leaf := FindLeafPage();
      var leaves :| 0 <= leaves;
      for i := 0 to leaves
        invariant Ready(1) && Kept(old(S()), S())
      {
        leaf := AnyPage();
        ghost var s := S();
        Visit(leaf);
        KeptTrans(old(S()), s, S());
      }
    }

    // ---------------------------------------------------------- insertion

    /** Two nodes are written together: a node and the new page its upper half moves to, or two siblings
        that exchange an entry.  The children of a split internal node are relabelled while both are
        pinned: three pins at once. */
    method WriteTogether(left: PageId, other: Option<PageId>, relabel: bool) returns (right: PageId)
      requires Ready(3) && 0 <= left < |pool.disk.file| && (other.Some? ==> 0 <= other.value < |pool.disk.file|)
      modifies pool, pool.frames, pool.meta, pool.disk
      ensures pool.Valid() && Kept(old(S()), S())
      ensures 0 <= right < |pool.disk.file|
    {
      hide FrameOk, Consistent, PinsOn, FramesStay, SamePins, OneMorePin;
      ghost var a := S();
      var leftSlot := Fetch(left);
      ghost var b := S();
      var rightSlot;
      if other.Some? {
        right := other.value;
        rightSlot := Fetch(right);
      } else {
        right, rightSlot := AllocatePage();
      }
      ghost var c := S();
      WriteBoth(b, left, right);
      ghost var w := S();
      KeptSelf(w);
      if relabel {
        AdoptChildren();
      }
      ghost var d := S();
      TwoStay(b, c, w, d, left, right);
      ghost var e := UnpinBoth(left, right, true);
      TwoPinsGone(a, b, c, d, e, S(), left, right);
      var _ := Log(left, leftSlot);
      var _ := Log(right, rightSlot);
      AllStay(a, b, c, d, S(), left, right);
    }

    method SplitNode(node: PageId, internal: bool, depth: nat)
      requires Ready(3) && 0 <= node < |pool.disk.file|
      modifies pool, pool.frames, pool.meta, pool.disk
      ensures pool.Valid() && Kept(old(S()), S())
      decreases depth, 1
    {
      hide FrameOk, Consistent, PinsOn;
      var right := WriteTogether(node, None, internal);
      ghost var s := S();
      InsertIntoParent(node, right, depth);
      KeptTrans(old(S()), s, S());
    }

    method InsertIntoParent(left: PageId, right: PageId, depth: nat)
      requires Ready(3) && 0 <= left < |pool.disk.file| && 0 <= right < |pool.disk.file|
      modifies pool, pool.frames, pool.meta, pool.disk
      ensures pool.Valid() && Kept(old(S()), S())
      decreases depth, 0
    {
      hide FrameOk, Consistent, PinsOn, FramesStay, SamePins;
      Visit(left);
      ghost var s1 := S();
      var isRoot: bool := *;
      if isRoot || depth == 0 {
        var _ := WriteNewRoot();
        ghost var s2 := S();
        Rewrite(left);
        ghost var s3 := S();
        Rewrite(right);
        KeptTrans(old(S()), s1, s2);
        KeptTrans(old(S()), s2, s3);
        KeptTrans(old(S()), s3, S());
        return;
      }
      var parent := AnyPage();
      Visit(parent);
      ghost var s2 := S();
      KeptTrans(old(S()), s1, s2);
      var wouldOverflow: bool := *;
      if wouldOverflow {
        SplitNode(parent, true, depth - 1);
        ghost var s3 := S();
        Visit(left);
        parent := AnyPage();
        KeptTrans(old(S()), s2, s3);
        KeptTrans(old(S()), s3, S());
      }
      ghost var s4 := S();
      LinkInParent(parent, right, depth);
      KeptTrans(old(S()), s4, S());
    }

    method LinkInParent(parent: PageId, right: PageId, depth: nat)
      requires Ready(3) && depth > 0 && 0 <= parent < |pool.disk.file| && 0 <= right < |pool.disk.file|
      modifies pool, pool.frames, pool.meta, pool.disk
      ensures pool.Valid() && Kept(old(S()), S())
      decreases depth - 1, 2
    {
      hide FrameOk, Consistent, PinsOn, FramesStay, SamePins;
      Rewrite(parent);
      ghost var s1 := S();
      Rewrite(right);
      ghost var s2 := S();
      Visit(parent);
      ghost var s3 := S();
      KeptTrans(old(S()), s1, s2);
      KeptTrans(old(S()), s2, s3);
      var full: bool := *;
      if full {
        SplitNode(parent, true, depth - 1);
        KeptTrans(old(S()), s3, S());
      }
    }

    /** Both outcomes: the throw for a duplicate key comes after the leaf was given back. */
    method Insert(depth: nat) returns (duplicate: bool)
      requires Ready(3)
      modifies pool, pool.frames, pool.meta, pool.disk
      ensures pool.Valid() && Kept(old(S()), S())
    {
      hide FrameOk, Consistent, PinsOn, FramesStay, SamePins;
      var leaf := FindLeafPage();
      ghost var s1 := S();
      Visit(leaf);
      ghost var s2 := S();
      KeptTrans(old(S()), s1, s2);
      duplicate := *;
      if duplicate {
        return;
      }
      var wouldOverflow: bool := *;
      if wouldOverflow {
        SplitNode(leaf, false, depth);
        ghost var s3 := S();
        leaf := FindLeafPage();
        KeptTrans(old(S()), s2, s3);
        KeptTrans(old(S()), s3, S());
      }
      ghost var s4 := S();
      Rewrite(leaf);
      ghost var s5 := S();
      CopyBack();
      KeptTrans(old(S()), s4, s5);
      KeptTrans(old(S()), s5, S());
    }

    // ---------------------------------------------------------- removal

    /** The sibling's page is read while both are pinned, but only the first page is written; the children
        that move are relabelled in between: three pins at once. */
    method MergePages(into: PageId, from: PageId, internal: bool)
      requires Ready(3) && 0 <= into < |pool.disk.file| && 0 <= from < |pool.disk.file|
      modifies pool, pool.frames, pool.meta, pool.disk
      ensures pool.Valid() && Kept(old(S()), S())
    {
      hide FrameOk, Consistent, PinsOn, FramesStay, SamePins, OneMorePin;
      ghost var a := S();
      if from in pool.changed {
        ChangedIsPinned(S(), from);
      }
      var intoSlot := Fetch(into);
      ghost var b := S();
      var _ := Fetch(from);
      ghost var c := S();
      WriteFirst(b, into, from);
      ghost var w := S();
      KeptSelf(w);
      if internal {
        AdoptChildren();
      }
      ghost var d := S();
      TwoStay(b, c, w, d, into, from);
      StillPinned(a, b, c, d, into, from);
      ghost var e := UnpinBoth(into, from, false);
      TwoPinsGone(a, b, c, d, e, S(), into, from);
      var _ := Log(into, intoSlot);
      AllStay(a, b, c, d, S(), into, from);
    }

    method FindSiblings(parent: PageId) returns (found: bool)
      requires Ready(1) && 0 <= parent < |pool.disk.file|
      modifies pool, pool.frames, pool.meta, pool.disk
      ensures pool.Valid() && Kept(old(S()), S())
    {
      hide FrameOk, Consistent, PinsOn, FramesStay, SamePins;
      Visit(parent);
      found := *;
    }

    /** An entry moves from a sibling that can spare one. */
    method Donate(donor: PageId, page: PageId, parent: PageId, isLeaf: bool)
      requires Ready(3) && 0 <= donor < |pool.disk.file| && 0 <= page < |pool.disk.file| && 0 <= parent < |pool.disk.file|
      modifies pool, pool.frames, pool.meta, pool.disk
      ensures pool.Valid() && Kept(old(S()), S())
    {
      hide FrameOk, Consistent, PinsOn, FramesStay, SamePins;
      ghost var s1;
      if isLeaf {
        Rewrite(donor);
        s1 := S();
        Rewrite(page);
      } else {
        var _ := WriteTogether(donor, Some(page), false);
        s1 := S();
        var movedChild := AnyPage();
        Rewrite(movedChild);
      }
      ghost var s2 := S();
      Rewrite(parent);
      KeptTrans(old(S()), s1, s2);
      KeptTrans(old(S()), s2, S());
    }

    method TryRedistribute(page: PageId, parent: PageId) returns (found: bool, done: bool)
      requires Ready(3) && 0 <= page < |pool.disk.file| && 0 <= parent < |pool.disk.file|
      modifies pool, pool.frames, pool.meta, pool.disk
      ensures pool.Valid() && Kept(old(S()), S())
    {
      hide FrameOk, Consistent, PinsOn, FramesStay, SamePins;
      done := false;
      found := FindSiblings(parent);
      if !found {
        return;
      }
      ghost var s := S();
      Visit(page);
      KeptTrans(old(S()), s, S());
      var isLeaf: bool := *;
      // the left sibling, then the right one
      for side := 0 to 2
        invariant Ready(3) && Kept(old(S()), S())
      {
        var hasSibling: bool := *;
        if hasSibling {
          var sibling := AnyPage();
          s := S();
          Visit(sibling);
          KeptTrans(old(S()), s, S());
          done := *;
          if done {
            s := S();
            Donate(sibling, page, parent, isLeaf);
            KeptTrans(old(S()), s, S());
            return;
          }
        }
      }
      done := false;
    }

    method MergeWithSibling(page: PageId, parent: PageId) returns (found: bool)
      requires Ready(3) && 0 <= page < |pool.disk.file| && 0 <= parent < |pool.disk.file|
      modifies pool, pool.frames, pool.meta, pool.disk
      ensures pool.Valid() && Kept(old(S()), S())
    {
      hide FrameOk, Consistent, PinsOn, FramesStay, SamePins;
      found := FindSiblings(parent);
      if !found {
        return;
      }
      ghost var s1 := S();
      var sibling := AnyPage();
      var toTheLeft: bool := *;
      var internal: bool := *;
      var into, from := if toTheLeft then sibling else page, if toTheLeft then page else sibling;
      MergePages(into, from, internal);
      ghost var s2 := S();
      Rewrite(parent);
      ghost var s3 := S();
      FreePage(from);
      KeptTrans(old(S()), s1, s2);
      KeptTrans(old(S()), s2, s3);
      KeptTrans(old(S()), s3, S());
    }

    method CollapseRoot(page: PageId)
      requires Ready(1) && 0 <= page < |pool.disk.file|
      modifies pool, pool.frames, pool.meta, pool.disk
      ensures pool.Valid() && Kept(old(S()), S())
    {
      hide FrameOk, Consistent, PinsOn, FramesStay, SamePins;
      Visit(page);
      var onlyOneChild: bool := *;
      if onlyOneChild {
        ghost var s1 := S();
        var child := AnyPage();
        Rewrite(child);
        ghost var s2 := S();
        FreePage(page);
        KeptTrans(old(S()), s1, s2);
        KeptTrans(old(S()), s2, S());
      }
    }

    method HandleUnderflow(page: PageId, depth: nat) returns (found: bool)
      requires Ready(3) && 0 <= page < |pool.disk.file|
      modifies pool, pool.frames, pool.meta, pool.disk
      ensures pool.Valid() && Kept(old(S()), S())
      decreases depth
    {
      hide FrameOk, Consistent, PinsOn, FramesStay, SamePins;
      found := true;
      var isRoot: bool := *;
      if isRoot {
        CollapseRoot(page);
        return;
      }
      KeptSelf(S());
      if depth == 0 {
        return;
      }
      var parent := AnyPage();
      var done;
      found, done := TryRedistribute(page, parent);
      if !found || done {
        return;
      }
      ghost var s1 := S();
      found := MergeWithSibling(page, parent);
      KeptTrans(old(S()), s1, S());
      if !found {
        return;
      }
      var parentIsRoot: bool := *;
      var underfull := true;
      if !parentIsRoot {
        ghost var s2 := S();
        Visit(parent);
        KeptTrans(old(S()), s2, S());
        underfull := *;
      }
      if underfull {
        ghost var s3 := S();
        found := HandleUnderflow(parent, depth - 1);
        KeptTrans(old(S()), s3, S());
      }
    }

    /** All outcomes: a missing key, and a page missing among its parent's children, throw with nothing
        pinned. */
    method Remove(depth: nat) returns (found: bool)
      requires Ready(3)
      modifies pool, pool.frames, pool.meta, pool.disk
      ensures pool.Valid() && Kept(old(S()), S())
    {
      hide FrameOk, Consistent, PinsOn, FramesStay, SamePins;
      var leaf := FindLeafPage();
      ghost var s1 := S();
      Visit(leaf);
      ghost var s2 := S();
      KeptTrans(old(S()), s1, s2);
      found := *;
      if !found {
        return;
      }
      Rewrite(leaf);
      ghost var s3 := S();
      KeptTrans(old(S()), s2, s3);
      var isRoot: bool := *;
      if !isRoot {
        Visit(leaf);
        KeptTrans(old(S()), s3, S());
        var underfull: bool := *;
        if underfull {
          ghost var s4 := S();
          found := HandleUnderflow(leaf, depth);
          KeptTrans(old(S()), s4, S());
          if !found {
            return;
          }
        }
      }
      ghost var s5 := S();
      CopyBack();
      KeptTrans(old(S()), s5, S());
    }
  }
}
