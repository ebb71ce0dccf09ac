/** The buffer pool (src/storage/buffer_pool.cpp:4-125) above the database file
    (src/storage/disk_manager.cpp:62-150). */
module Buffering {
  import opened Pages
  import opened Wrappers

  datatype FrameMeta = FrameMeta(page: PageId, dirty: bool, pins: nat)

  const EMPTY_FRAME := FrameMeta(INVALID_PAGE, false, 0)

  /** Everything the pool consists of.  For the statement only: when each slot was last touched, and which
      pages a client has changed in their frames without having unpinned them as dirty yet. */
  datatype Pool = Pool(
    frames: seq<Page>, meta: seq<FrameMeta>, table: map<PageId, nat>, lru: seq<nat>, file: seq<Page>,
    touchedAt: seq<int>, changed: set<PageId>)

  // ------------------------------------------------------------ consistency

  predicate InFrame(s: Pool, p: PageId) {
    p in s.table && s.table[p] < |s.frames| && s.table[p] < |s.meta|
  }

  /** The page table and the frame metadata say the same. */
  ghost predicate TableOk(s: Pool) {
    && |s.frames| == |s.meta|
    && (forall p :: p in s.table ==> s.table[p] < |s.meta| && s.meta[s.table[p]].page == p && 0 <= p < |s.file|)
    && (forall i :: 0 <= i < |s.meta| && s.meta[i].page != INVALID_PAGE ==>
          s.meta[i].page in s.table && s.table[s.meta[i].page] == i)
  }

  /** The list is a permutation of the slots, most recently touched first. */
  ghost predicate LruOk(s: Pool) {
    && |s.lru| == |s.meta| == |s.touchedAt|
    && (forall k :: 0 <= k < |s.lru| ==> s.lru[k] < |s.meta|)
    && (forall j, k :: 0 <= j < k < |s.lru| ==> s.touchedAt[s.lru[j]] > s.touchedAt[s.lru[k]])
    && (forall i: nat :: i < |s.meta| ==> i in s.lru)
  }

  /** A clean frame holds what the file holds; an empty frame holds zeros and nobody uses it. */
  ghost predicate FrameOk(s: Pool, i: nat)
    requires i < |s.meta| == |s.frames|
  {
    var meta := s.meta[i];
    && (meta.page == INVALID_PAGE ==> meta == EMPTY_FRAME && s.frames[i] == Blank)
    && (meta.page != INVALID_PAGE ==> 0 <= meta.page < |s.file|)
    && (meta.page != INVALID_PAGE && !meta.dirty && meta.page !in s.changed ==> s.frames[i] == s.file[meta.page])
    && (meta.page in s.changed ==> meta.pins > 0)
  }

  ghost predicate Consistent(s: Pool) {
    && TableOk(s) && LruOk(s)
    && (forall i: nat {:trigger FrameOk(s, i)} :: i < |s.meta| ==> FrameOk(s, i))
    && (forall p :: p in s.changed ==> p in s.table)
  }

  // ------------------------------------------------------------ what the pool stands for

  function Latest(s: Pool, p: PageId): Page
    requires 0 <= p < |s.file|
  {
    if InFrame(s, p) then s.frames[s.table[p]] else s.file[p]
  }

  /** The latest contents of every page of the file. */
  function View(s: Pool): (view: seq<Page>)
    ensures |view| == |s.file|
    ensures forall p :: 0 <= p < |view| ==> view[p] == Latest(s, p)
  {
    seq(|s.file|, p requires 0 <= p < |s.file| => Latest(s, p))
  }

  lemma SameView(s: Pool, s': Pool)
    requires |s'.file| == |s.file|
    requires forall p :: 0 <= p < |s.file| ==> Latest(s', p) == Latest(s, p)
    ensures View(s') == View(s)
  {
  }

  // ------------------------------------------------------------ eviction and loading

  /** Slot i is emptied: a dirty page is written to the file first. */
  function Emptied(s: Pool, i: nat): Pool
    requires i < |s.meta| == |s.frames|
    requires s.meta[i].page != INVALID_PAGE ==> 0 <= s.meta[i].page < |s.file|
  {
    var p := s.meta[i].page;
    s.(file := if p != INVALID_PAGE && s.meta[i].dirty then s.file[p := s.frames[i]] else s.file,
       table := if p != INVALID_PAGE then s.table - {p} else s.table,
       meta := s.meta[i := EMPTY_FRAME], frames := s.frames[i := Blank])
  }

  lemma EmptiedKeeps(s: Pool, i: nat)
    requires Consistent(s) && i < |s.meta| && s.meta[i].pins == 0
    ensures s.meta[i].page != INVALID_PAGE ==> 0 <= s.meta[i].page < |s.file|
    ensures Consistent(Emptied(s, i)) && View(Emptied(s, i)) == View(s)
  {
    assert FrameOk(s, i);
    var s' := Emptied(s, i);
    var p := s.meta[i].page;
    assert p !in s.changed;
    assert TableOk(s');
    forall k: nat | k < |s'.meta| ensures FrameOk(s', k) {
      assert FrameOk(s, k);
    }
    forall q | 0 <= q < |s.file| ensures Latest(s', q) == Latest(s, q) {
    }
    SameView(s, s');
  }

  /** Page p, with these contents, comes into the empty slot i. */
  function Loaded(s: Pool, i: nat, p: PageId): Pool
    requires i < |s.meta| == |s.frames| && 0 <= p < |s.file|
  {
    s.(frames := s.frames[i := s.file[p]], meta := s.meta[i := FrameMeta(p, false, 1)], table := s.table[p := i])
  }

  lemma LoadedKeeps(s: Pool, i: nat, p: PageId)
    requires Consistent(s) && i < |s.meta| && s.meta[i] == EMPTY_FRAME && 0 <= p < |s.file| && p !in s.table
    ensures Consistent(Loaded(s, i, p)) && View(Loaded(s, i, p)) == View(s)
  {
    var s' := Loaded(s, i, p);
    assert TableOk(s');
    forall k: nat | k < |s'.meta| ensures FrameOk(s', k) {
      assert FrameOk(s, k);
    }
    SameView(s, s');
  }

  // ------------------------------------------------------------ recency

  predicate After(times: seq<int>, now: int) {
    forall i :: 0 <= i < |times| ==> times[i] < now
  }

  /** The slot moves to the front of the list. */
  function Touched(s: Pool, k: nat, now: int): Pool
    requires k < |s.lru| && s.lru[k] < |s.touchedAt|
  {
    s.(lru := [s.lru[k]] + s.lru[..k] + s.lru[k + 1..], touchedAt := s.touchedAt[s.lru[k] := now])
  }

  lemma TouchedKeeps(s: Pool, k: nat, now: int)
    requires Consistent(s) && k < |s.lru| && After(s.touchedAt, now)
    ensures Consistent(Touched(s, k, now)) && View(Touched(s, k, now)) == View(s)
    ensures After(Touched(s, k, now).touchedAt, now + 1)
  {
    hide FrameOk;
    var s' := Touched(s, k, now);
    var i := s.lru[k];
    forall j | 0 <= j < |s.lru| && j != k ensures s.lru[j] != i {
    }
    assert forall m: nat :: m < |s.meta| ==> m in s'.lru by {
      forall m: nat | m < |s.meta| ensures m in s'.lru {
        assert m in s.lru;
        var j :| 0 <= j < |s.lru| && s.lru[j] == m;
        if j < k {
          assert s'.lru[j + 1] == m;
        } else if j == k {
          assert s'.lru[0] == m;
        } else {
          assert s'.lru[j] == m;
        }
      }
    }
    assert LruOk(s');
    SameFrames(s, s');
    SameView(s, s');
  }

  lemma SameFrames(s: Pool, s': Pool)
    requires Consistent(s) && s'.meta == s.meta && s'.frames == s.frames && s'.file == s.file && s'.changed == s.changed
    ensures forall i: nat {:trigger FrameOk(s', i)} :: i < |s'.meta| == |s'.frames| ==> FrameOk(s', i)
  {
    forall i: nat | i < |s'.meta| == |s'.frames| ensures FrameOk(s', i) {
      assert FrameOk(s, i);
    }
  }

  // ------------------------------------------------------------ clients' steps

  /** A client rewrites a page it holds pinned. */
  function Rewritten(s: Pool, p: PageId, page: Page): Pool
    requires p in s.table && s.table[p] < |s.frames|
  {
    s.(frames := s.frames[s.table[p] := page], changed := s.changed + {p})
  }

  lemma RewrittenKeeps(s: Pool, p: PageId, page: Page)
    requires Consistent(s) && p in s.table && s.meta[s.table[p]].pins > 0
    ensures Consistent(Rewritten(s, p, page)) && View(Rewritten(s, p, page)) == View(s)[p := page]
  {
    var s' := Rewritten(s, p, page);
    forall i: nat | i < |s'.meta| ensures FrameOk(s', i) {
      assert FrameOk(s, i);
    }
  }

  /** A pin is given back, and the frame marked as dirty if the client says so. */
  function Unpinned(s: Pool, p: PageId, dirty: bool): Pool
    requires p in s.table && s.table[p] < |s.meta|
  {
    var m := s.meta[s.table[p]];
    if m.pins == 0 then s
    else s.(meta := s.meta[s.table[p] := FrameMeta(m.page, m.dirty || dirty, m.pins - 1)],
            changed := if dirty then s.changed - {p} else s.changed)
  }

  lemma UnpinnedKeeps(s: Pool, p: PageId, dirty: bool)
    requires Consistent(s) && p in s.table && (p in s.changed && !dirty ==> s.meta[s.table[p]].pins > 1)
    ensures Consistent(Unpinned(s, p, dirty)) && View(Unpinned(s, p, dirty)) == View(s)
  {
    var s' := Unpinned(s, p, dirty);
    assert FrameOk(s, s.table[p]);
    forall i: nat | i < |s'.meta| ensures FrameOk(s', i) {
      assert FrameOk(s, i);
    }
    SameView(s, s');
  }

  /** One more pin on a page in the pool. */
  function Pinned(s: Pool, i: nat): Pool
    requires i < |s.meta|
  {
    s.(meta := s.meta[i := s.meta[i].(pins := s.meta[i].pins + 1)])
  }

  lemma PinnedKeeps(s: Pool, i: nat)
    requires Consistent(s) && i < |s.meta| && s.meta[i].page != INVALID_PAGE
    ensures Consistent(Pinned(s, i)) && View(Pinned(s, i)) == View(s)
  {
    var s' := Pinned(s, i);
    forall k: nat | k < |s'.meta| ensures FrameOk(s', k) {
      assert FrameOk(s, k);
    }
    SameView(s, s');
  }

  /** The file grows by a page of zeros. */
  lemma ExtendedKeeps(s: Pool)
    requires Consistent(s)
    ensures var s' := s.(file := s.file + [Blank]); Consistent(s') && View(s') == View(s) + [Blank]
  {
    var s' := s.(file := s.file + [Blank]);
    forall i: nat | i < |s'.meta| ensures FrameOk(s', i) {
      assert FrameOk(s, i);
    }
    assert |s.file| !in s.table;
  }

  /** A dirty page is written to the file. */
  function Flushed(s: Pool, i: nat): Pool
    requires i < |s.meta| == |s.frames| && 0 <= s.meta[i].page < |s.file|
  {
    if s.meta[i].dirty then s.(file := s.file[s.meta[i].page := s.frames[i]], meta := s.meta[i := s.meta[i].(dirty := false)])
    else s
  }

  lemma FlushedKeeps(s: Pool, i: nat)
    requires Consistent(s) && i < |s.meta| && s.meta[i].page != INVALID_PAGE
    ensures 0 <= s.meta[i].page < |s.file| && Consistent(Flushed(s, i)) && View(Flushed(s, i)) == View(s)
  {
    assert FrameOk(s, i);
    var s' := Flushed(s, i);
    forall k: nat | k < |s'.meta| ensures FrameOk(s', k) {
      assert FrameOk(s, k);
    }
    SameView(s, s');
  }

  /** When nothing is dirty or being changed, the file is up to date. */
  lemma CleanFileIsView(s: Pool)
    requires Consistent(s) && s.changed == {} && forall i :: 0 <= i < |s.meta| ==> !s.meta[i].dirty
    ensures s.file == View(s)
  {
    forall p | 0 <= p < |s.file| ensures s.file[p] == Latest(s, p) {
      if p in s.table {
        assert FrameOk(s, s.table[p]);
      }
    }
  }

  // ------------------------------------------------------------ which slot is evicted

  /** Slot i is unpinned, and no unpinned slot was touched longer ago. */
  ghost predicate LeastRecentlyUsed(s: Pool, i: nat) {
    && i < |s.meta| == |s.touchedAt| && s.meta[i].pins == 0
    && forall j :: 0 <= j < |s.meta| && s.meta[j].pins == 0 ==> s.touchedAt[i] <= s.touchedAt[j]
  }

  ghost predicate AllPinned(s: Pool) {
    forall i :: 0 <= i < |s.meta| ==> s.meta[i].pins > 0
  }

  /** The last unpinned slot of the list is the one touched longest ago. */
  lemma LastUnpinnedIsOldest(s: Pool, k: nat)
    requires LruOk(s) && k < |s.lru| && s.meta[s.lru[k]].pins == 0
    requires PinnedFrom(s, k + 1)
    ensures LeastRecentlyUsed(s, s.lru[k])
  {
    forall i: nat | i < |s.meta| && s.meta[i].pins == 0 ensures s.touchedAt[s.lru[k]] <= s.touchedAt[i] {
      assert i in s.lru;
      var j :| 0 <= j < |s.lru| && s.lru[j] == i;
    }
  }

  ghost predicate PinnedFrom(s: Pool, k: nat) {
    forall j :: k <= j < |s.lru| && s.lru[j] < |s.meta| ==> s.meta[s.lru[j]].pins > 0
  }

  lemma NoneUnpinned(s: Pool)
    requires LruOk(s) && PinnedFrom(s, 0)
    ensures AllPinned(s)
  {
    forall i: nat | i < |s.meta| ensures s.meta[i].pins > 0 {
      assert i in s.lru;
      var j :| 0 <= j < |s.lru| && s.lru[j] == i;
    }
  }

  lemma EmptyIsClean(s: Pool)
    requires Consistent(s)
    ensures forall i :: 0 <= i < |s.meta| && s.meta[i].page == INVALID_PAGE ==> s.meta[i] == EMPTY_FRAME
  {
    forall i: nat | i < |s.meta| && s.meta[i].page == INVALID_PAGE ensures s.meta[i] == EMPTY_FRAME {
      assert FrameOk(s, i);
    }
  }

  /** Pinned pages stay in their slots. */
  ghost predicate PinnedStay(before: Pool, after: Pool) {
    |before.meta| == |after.meta| &&
    forall p :: p in before.table && before.table[p] < |before.meta| && before.meta[before.table[p]].pins > 0 ==>
      p in after.table && after.table[p] == before.table[p]
  }

  /** A page that leaves the pool was in the least recently used unpinned slot. */
  ghost predicate OnlyOldestLeaves(before: Pool, after: Pool) {
    forall p :: p in before.table && p !in after.table ==> LeastRecentlyUsed(before, before.table[p])
  }

  lemma EvictionFacts(s: Pool, i: nat)
    requires Consistent(s) && LeastRecentlyUsed(s, i)
    ensures !AllPinned(s) && |s.meta| == |s.frames| && (s.meta[i].page != INVALID_PAGE ==> 0 <= s.meta[i].page < |s.file|)
    ensures forall p :: p in s.table ==> s.table[p] < |s.meta|
    ensures forall p :: p in s.table && s.table[p] != i ==> p in Emptied(s, i).table && Emptied(s, i).table[p] == s.table[p]
    ensures forall p :: p in Emptied(s, i).table ==> p in s.table
    ensures |Emptied(s, i).file| == |s.file|
  {
    assert FrameOk(s, i);
  }

  lemma LoadedIsLatest(s: Pool, p: PageId)
    requires Consistent(s) && p in s.table
    ensures 0 <= p < |s.file| && s.table[p] < |s.frames| && View(s)[p] == s.frames[s.table[p]]
  {
  }

  lemma OnDiskIsLatest(s: Pool, p: PageId)
    requires p !in s.table && 0 <= p < |s.file|
    ensures View(s)[p] == s.file[p]
  {
  }

  lemma NotInTable(s: Pool)
    requires Consistent(s)
    ensures |s.file| !in s.table
  {
  }

  // ------------------------------------------------------------ pins

  ghost function PinsOn(s: Pool, p: PageId): nat {
    if InFrame(s, p) then s.meta[s.table[p]].pins else 0
  }

  ghost predicate SamePins(s: Pool, s': Pool) {
    forall p :: PinsOn(s', p) == PinsOn(s, p)
  }

  /** One more pin on page p. */
  ghost predicate OneMorePin(s: Pool, s': Pool, p: PageId) {
    forall q :: PinsOn(s', q) == PinsOn(s, q) + if q == p then 1 else 0
  }

  lemma EmptiedPins(s: Pool, i: nat)
    requires Consistent(s) && i < |s.meta| && s.meta[i].pins == 0
    requires s.meta[i].page != INVALID_PAGE ==> 0 <= s.meta[i].page < |s.file|
    ensures SamePins(s, Emptied(s, i))
  {
    hide FrameOk;
    forall p ensures PinsOn(Emptied(s, i), p) == PinsOn(s, p) {
    }
  }

  lemma LoadedPins(s: Pool, s': Pool, i: nat, p: PageId)
    requires Consistent(s) && i < |s.meta| && s.meta[i] == EMPTY_FRAME && 0 <= p < |s.file| && p !in s.table
    requires s'.meta == Loaded(s, i, p).meta && s'.table == Loaded(s, i, p).table && |s'.frames| == |s.frames|
    ensures OneMorePin(s, s', p)
  {
    hide FrameOk;
    forall q ensures PinsOn(s', q) == PinsOn(s, q) + if q == p then 1 else 0 {
    }
  }

  lemma PinnedPins(s: Pool, s': Pool, p: PageId)
    requires Consistent(s) && p in s.table && s.table[p] < |s.meta|
    requires s'.meta == Pinned(s, s.table[p]).meta && s'.table == s.table && |s'.frames| == |s.frames|
    ensures OneMorePin(s, s', p)
  {
    hide FrameOk;
    forall q ensures PinsOn(s', q) == PinsOn(s, q) + if q == p then 1 else 0 {
    }
  }

  lemma UnpinnedPins(s: Pool, p: PageId, dirty: bool)
    requires Consistent(s) && InFrame(s, p)
    ensures if PinsOn(s, p) > 0 then OneMorePin(Unpinned(s, p, dirty), s, p) else Unpinned(s, p, dirty) == s
  {
    hide FrameOk;
    forall q ensures PinsOn(s, p) > 0 ==> PinsOn(s, q) == PinsOn(Unpinned(s, p, dirty), q) + if q == p then 1 else 0 {
    }
  }

  ghost function PinnedPages(s: Pool): set<PageId> {
    set p | p in s.table && PinsOn(s, p) > 0
  }

  /** The pages in the first k slots that are pinned. */
  ghost function PinnedBelow(s: Pool, k: nat): set<PageId>
    requires k <= |s.meta|
  {
    if k == 0 then {} else PinnedBelow(s, k - 1) + if s.meta[k - 1].pins > 0 then {s.meta[k - 1].page} else {}
  }

  lemma {:induction false} MembersPinned(s: Pool, k: nat, p: PageId)
    requires Consistent(s) && k <= |s.meta|
    ensures p in PinnedBelow(s, k) <==> p in s.table && s.table[p] < k && PinsOn(s, p) > 0
  {
    if k > 0 {
      MembersPinned(s, k - 1, p);
      assert FrameOk(s, k - 1);
    }
  }

  lemma PinnedSlotIsFound(s: Pool, i: nat)
    requires Consistent(s) && i < |s.meta| && s.meta[i].pins > 0
    ensures s.meta[i].page in s.table && s.table[s.meta[i].page] == i
  {
    assert FrameOk(s, i);
  }

  lemma {:induction false} CountPinned(s: Pool, k: nat)
    requires Consistent(s) && k <= |s.meta|
    ensures |PinnedBelow(s, k)| <= k
    ensures |PinnedBelow(s, k)| == k <==> forall i :: 0 <= i < k ==> s.meta[i].pins > 0
  {
    hide Consistent, PinsOn;
    if k > 0 {
      CountPinned(s, k - 1);
      MembersPinned(s, k - 1, s.meta[k - 1].page);
      if s.meta[k - 1].pins > 0 {
        PinnedSlotIsFound(s, k - 1);
        assert PinnedBelow(s, k) == PinnedBelow(s, k - 1) + {s.meta[k - 1].page};
      } else {
        assert PinnedBelow(s, k) == PinnedBelow(s, k - 1);
      }
    }
  }

  /** The pool can take in another page exactly as long as fewer pages are pinned than it has slots. */
  lemma FreeSlotIff(s: Pool)
    requires Consistent(s)
    ensures AllPinned(s) <==> |PinnedPages(s)| == |s.meta|
    ensures |PinnedPages(s)| <= |s.meta|
  {
    CountPinned(s, |s.meta|);
    hide FrameOk, LruOk, PinnedBelow;
    forall p ensures p in PinnedPages(s) <==> p in PinnedBelow(s, |s.meta|) {
      MembersPinned(s, |s.meta|, p);
    }
    assert PinnedPages(s) == PinnedBelow(s, |s.meta|);
  }

  // ------------------------------------------------------------ the pool

  class DiskManager {
    var file: seq<Page>

    method ReadPage(pageId: PageId) returns (page: Option<Page>)
      ensures page == if 0 <= pageId < |file| then Some(file[pageId]) else None
    {
      page := if 0 <= pageId < |file| then Some(file[pageId]) else None;
    }

    method WritePage(pageId: PageId, page: Page)
      requires 0 <= pageId < |file|
      modifies this
      ensures file == old(file)[pageId := page]
    {
      file := file[pageId := page];
    }

    method AllocatePage() returns (pageId: PageId)
      modifies this
      ensures pageId == old(|file|) && file == old(file) + [Blank]
    {
      pageId := |file|;
      file := file + [Blank];
    }
  }

  datatype Fetch = Frame(slot: nat) | NoFreeSlot | OutOfRange

  class BufferPool {
    const disk: DiskManager
    const frames: array<Page>
    const meta: array<FrameMeta>
    var pageTable: map<PageId, nat>
    var lru: seq<nat>
    ghost var touchedAt: seq<int>
    ghost var now: int
    ghost var changed: set<PageId>

    ghost function S(): Pool
      reads this, disk, frames, meta
    {
      Pool(frames[..], meta[..], pageTable, lru, disk.file, touchedAt, changed)
    }

    ghost predicate Valid()
      reads this, disk, frames, meta
    {
      Consistent(S()) && After(touchedAt, now)
    }

    /** An empty pool of any size. */
    constructor (disk: DiskManager, size: nat)
      ensures Valid() && fresh(frames) && fresh(meta) && this.disk == disk && meta.Length == size
      ensures pageTable == map[] && changed == {} && View(S()) == disk.file
    {
      this.disk := disk;
      frames := new Page[size](i => Blank);
      meta := new FrameMeta[size](i => EMPTY_FRAME);
      pageTable, lru := map[], seq(size, i requires 0 <= i < size => i);
      touchedAt, now, changed := seq(size, i requires 0 <= i < size => size - i), size + 1, {};
      new;
      forall i: nat | i < size ensures i in lru {
        assert lru[i] == i;
      }
    }

    method EvictFrame(slot: nat)
      requires Valid() && slot < meta.Length && meta[slot].pins == 0
      modifies this`pageTable, frames, meta, disk
      ensures meta[slot] == EMPTY_FRAME
      ensures old(meta[slot].page) != INVALID_PAGE ==> 0 <= old(meta[slot].page) < |old(disk.file)|
      ensures S() == Emptied(old(S()), slot) && Valid() && View(S()) == View(old(S())) && SamePins(old(S()), S())
    {
      EmptiedKeeps(S(), slot);
      EmptiedPins(S(), slot);
      hide Consistent, View;
      var oldPage := meta[slot].page;
      if oldPage != INVALID_PAGE {
        if meta[slot].dirty {
          disk.WritePage(oldPage, frames[slot]);
        }
        pageTable := pageTable - {oldPage};
      }
      meta[slot] := EMPTY_FRAME;
      frames[slot] := Blank;
    }

    /** The list is searched from its end for an unpinned slot, which is emptied. */
    method EvictSlot() returns (slot: Option<nat>)
      requires Valid()
      modifies this`pageTable, frames, meta, disk
      ensures Valid() && View(S()) == View(old(S())) && SamePins(old(S()), S())
      ensures slot.None? <==> AllPinned(old(S()))
      ensures slot.None? ==> S() == old(S())
      ensures slot.Some? ==> LeastRecentlyUsed(old(S()), slot.value) && S() == Emptied(old(S()), slot.value)
      ensures slot.Some? ==> slot.value < meta.Length && meta[slot.value] == EMPTY_FRAME
    {
      hide FrameOk, View, PinsOn;
      var k := |lru|;
      while k > 0
        invariant S() == old(S()) && Valid()
        invariant 0 <= k <= |lru| && PinnedFrom(S(), k)
      {
        k := k - 1;
        if meta[lru[k]].pins == 0 {
          LastUnpinnedIsOldest(S(), k);
          EvictFrame(lru[k]);
          return Some(lru[k]);
        }
      }
      NoneUnpinned(S());
      slot := None;
    }

    method Touch(slot: nat)
      requires Valid() && slot < meta.Length
      modifies this`lru, this`touchedAt, this`now
      ensures Valid() && View(S()) == View(old(S()))
      ensures S() == old(S()).(lru := lru, touchedAt := touchedAt)
      ensures touchedAt == old(touchedAt)[slot := old(now)] && now == old(now) + 1
    {
      hide FrameOk, View;
      assert slot in lru;
      var k := 0;
      while lru[k] != slot
        invariant k < |lru| && slot in lru[k..]
        decreases |lru| - k
      {
        k := k + 1;
      }
      TouchedKeeps(S(), k, now);
      ghost var s := S();
      lru := [slot] + lru[..k] + lru[k + 1..];
      touchedAt, now := touchedAt[slot := now], now + 1;
      assert S() == Touched(s, k, now - 1);
    }

    /** The page is put into the empty slot, with one pin. */
    method Install(slot: nat, pageId: PageId, page: Page)
      requires Valid() && slot < meta.Length && meta[slot] == EMPTY_FRAME
      requires pageId !in pageTable && 0 <= pageId < |disk.file| && disk.file[pageId] == page
      modifies this`pageTable, this`lru, this`touchedAt, this`now, frames, meta
      ensures Valid() && View(S()) == View(old(S())) && S().table == old(S()).table[pageId := slot]
      ensures meta[slot] == FrameMeta(pageId, false, 1) && frames[slot] == page
      ensures slot < |old(touchedAt)| && touchedAt == old(touchedAt)[slot := old(now)] && OneMorePin(old(S()), S(), pageId)
    {
      hide FrameOk, View, PinsOn;
      LoadedKeeps(S(), slot, pageId);
      ghost var s := S();
      frames[slot] := page;
      meta[slot] := FrameMeta(pageId, false, 1);
      pageTable := pageTable[pageId := slot];
      assert S() == Loaded(s, slot, pageId);
      Touch(slot);
      LoadedPins(s, S(), slot, pageId);
    }

    /** A page already in the pool gets another pin. */
    method Repin(pageId: PageId) returns (slot: nat)
      requires Valid() && pageId in pageTable
      modifies this`lru, this`touchedAt, this`now, meta
      ensures Valid() && View(S()) == View(old(S())) && slot == pageTable[pageId] < meta.Length
      ensures 0 <= pageId < |disk.file| && frames[slot] == View(S())[pageId]
      ensures meta[slot] == old(meta[..])[slot].(pins := old(meta[..])[slot].pins + 1)
      ensures slot < |old(touchedAt)| && touchedAt == old(touchedAt)[slot := old(now)] && OneMorePin(old(S()), S(), pageId)
    {
      hide FrameOk, PinsOn;
      slot := pageTable[pageId];
      PinnedKeeps(S(), slot);
      ghost var s := S();
      meta[slot] := meta[slot].(pins := meta[slot].pins + 1);
      assert S() == Pinned(s, slot);
      Touch(slot);
      PinnedPins(s, S(), pageId);
    }

    /** The page comes into the pool if it is not there, and is pinned.  Only an unpinned page can leave the
        pool for it, the one touched longest ago. */
    method FetchPage(pageId: PageId) returns (result: Fetch)
      requires Valid()
      modifies this`pageTable, this`lru, this`touchedAt, this`now, frames, meta, disk
      ensures Valid() && View(S()) == View(old(S())) && changed == old(changed)
      ensures match result
              case Frame(slot) =>
                && slot < meta.Length && pageId in pageTable && pageTable[pageId] == slot
                && 0 <= pageId < |disk.file| && frames[slot] == View(S())[pageId]
                && meta[slot].pins == (if pageId in old(pageTable) then old(meta[..])[slot].pins else 0) + 1
                && touchedAt[slot] == old(now)
              case NoFreeSlot => pageId !in old(pageTable) && AllPinned(old(S()))
              case OutOfRange => !(0 <= pageId < |disk.file|) && !AllPinned(old(S()))
      ensures result.NoFreeSlot? <==> pageId !in old(pageTable) && AllPinned(old(S()))
      ensures PinnedStay(old(S()), S()) && OnlyOldestLeaves(old(S()), S())
      ensures if result.Frame? then OneMorePin(old(S()), S(), pageId) else SamePins(old(S()), S())
    {
      hide FrameOk, View, Consistent, PinsOn;
      if pageId in pageTable {
        var slot := Repin(pageId);
        return Fetch.Frame(slot);
      }
      ghost var s0 := S();
      var free := EvictSlot();
      if free.None? {
        return NoFreeSlot;
      }
      EvictionFacts(s0, free.value);
      var slot := free.value;
      var page := disk.ReadPage(pageId);
      if page.None? {
        return OutOfRange;
      }
      Install(slot, pageId, page.value);
      LoadedIsLatest(S(), pageId);
      result := Fetch.Frame(slot);
    }

    /** The file is extended first: without a free slot the new page exists, but is not in the pool. */
    method NewPage() returns (pageId: PageId, result: Fetch)
      requires Valid()
      modifies this`pageTable, this`lru, this`touchedAt, this`now, frames, meta, disk
      ensures Valid() && View(S()) == View(old(S())) + [Blank] && pageId == |old(disk.file)| && changed == old(changed)
      ensures match result
              case Frame(slot) =>
                && slot < meta.Length && pageId in pageTable && pageTable[pageId] == slot
                && frames[slot] == Blank && meta[slot] == FrameMeta(pageId, false, 1)
              case NoFreeSlot => AllPinned(old(S()))
              case OutOfRange => false
      ensures result.NoFreeSlot? <==> AllPinned(old(S()))
      ensures PinnedStay(old(S()), S()) && OnlyOldestLeaves(old(S()), S())
      ensures if result.Frame? then OneMorePin(old(S()), S(), pageId) else SamePins(old(S()), S())
    {
      hide FrameOk, View, Consistent;
      ExtendedKeeps(S());
      NotInTable(S());
      ghost var s0 := S();
      pageId := disk.AllocatePage();
      ghost var s1 := S();
      assert s1 == s0.(file := s0.file + [Blank]);
      var free := EvictSlot();
      if free.None? {
        return pageId, NoFreeSlot;
      }
      EvictionFacts(s1, free.value);
      OnDiskIsLatest(S(), pageId);
      Install(free.value, pageId, Blank);
      result := Fetch.Frame(free.value);
    }

    /** A client writes through the pointer it got from a fetch. */
    method WriteThrough(pageId: PageId, page: Page)
      requires Valid() && pageId in pageTable && pageTable[pageId] < meta.Length && meta[pageTable[pageId]].pins > 0
      modifies frames, this`changed
      ensures Valid() && 0 <= pageId < |disk.file| && View(S()) == View(old(S()))[pageId := page]
      ensures S() == Rewritten(old(S()), pageId, page)
    {
      hide FrameOk, View;
      RewrittenKeeps(S(), pageId, page);
      ghost var s := S();
      frames[pageTable[pageId]] := page;
      changed := changed + {pageId};
      assert S() == Rewritten(s, pageId, page);
    }

    /** Clients that changed the page say so, at the latest when they give back the last pin. */
    method UnpinPage(pageId: PageId, isDirty: bool)
      requires Valid()
      requires pageId in changed && !isDirty ==> pageId in pageTable && pageTable[pageId] < meta.Length && meta[pageTable[pageId]].pins > 1
      modifies meta, this`changed
      ensures Valid() && View(S()) == View(old(S()))
      ensures S() == if pageId in pageTable && pageTable[pageId] < |old(meta[..])| then Unpinned(old(S()), pageId, isDirty) else old(S())
    {
      hide FrameOk, View;
      if pageId !in pageTable {
        return;
      }
      UnpinnedKeeps(S(), pageId, isDirty);
      ghost var s := S();
      var slot := pageTable[pageId];
      if meta[slot].pins == 0 {
        return;
      }
      meta[slot] := meta[slot].(pins := meta[slot].pins - 1);
      if isDirty {
        meta[slot] := meta[slot].(dirty := true);
        changed := changed - {pageId};
      }
      assert S() == Unpinned(s, pageId, isDirty);
    }

    method FlushPage(pageId: PageId)
      requires Valid()
      modifies meta, disk
      ensures Valid() && View(S()) == View(old(S()))
      ensures forall i :: 0 <= i < meta.Length ==>
                meta[i] == if meta[i].page == pageId then old(meta[..])[i].(dirty := false) else old(meta[..])[i]
    {
      hide FrameOk, View;
      EmptyIsClean(S());
      if pageId !in pageTable {
        return;
      }
      var slot := pageTable[pageId];
      FlushedKeeps(S(), slot);
      ghost var s := S();
      if meta[slot].dirty {
        disk.WritePage(pageId, frames[slot]);
        meta[slot] := meta[slot].(dirty := false);
      }
      assert S() == Flushed(s, slot);
    }

    /** Everything dirty is written; with no client in the middle of a change, the file is then the view. */
    method FlushAll()
      requires Valid()
      modifies meta, disk
      ensures Valid() && View(S()) == View(old(S())) && forall i :: 0 <= i < meta.Length ==> !meta[i].dirty
      ensures changed == {} ==> disk.file == View(S())
    {
      hide FrameOk, View;
      for slot := 0 to meta.Length
        invariant Valid() && View(S()) == View(old(S()))
        invariant forall i :: 0 <= i < slot ==> !meta[i].dirty
      {
        EmptyIsClean(S());
        if meta[slot].page != INVALID_PAGE {
          FlushPage(meta[slot].page);
        }
      }
      if changed == {} {
        CleanFileIsView(S());
      }
    }
  }
}