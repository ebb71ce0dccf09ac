/** The log manager (src/wal/wal_manager.cpp:10-132).

    Its loops are shown to be runs of the machine of module Recovery.  The object carries the machine's state
    as a ghost field; between any two assignments to the real fields, the steps the machine has made so far
    account for what log, file and pool hold, and where clients keep to the rules every step keeps the
    machine's invariant.

    The pool is used through what module Buffering proves of it: a map from page numbers to the latest
    contents, with a set of dirty pages.  Writing a dirty page to the file is the step an eviction or a flush
    makes, in any order.
 */
module LogManager {
  import opened Pages
  import opened Wrappers
  import opened RedoLog
  import opened Recovery
  import Paging

  /** What may happen between the beginning of a transaction and its commit. */
  predicate InTransaction(events: seq<Event>) {
    forall i :: 0 <= i < |events| ==>
      events[i].Log? || events[i].Modify? || events[i].Extend? || events[i].Writeback? || events[i].Sync?
  }

  lemma {:induction false} TransactionKeepsHistory(s: Machine, events: seq<Event>)
    requires Inv(s) && s.phase.Running? && s.txn.Some? && InTransaction(events) && Allowed(s, events)
    ensures var s' := Run(s, events); s'.phase.Running? && s'.txn.Some? && CommittedPages(s') == CommittedPages(s)
    decreases |events|
  {
    hide Fold, Committed, Inv, Disciplined;
    if events != [] {
      var e := events[0];
      StepKeeps(s, e);
      var s1 := Do(s, e);
      assert forall i :: 0 <= i < |events[1..]| ==> events[1..][i] == events[i + 1];
      assert CommittedPages(s1) == CommittedPages(s);
      TransactionKeepsHistory(s1, events[1..]);
    }
  }

  /** A transaction of the B+ tree keeps to the rule that only logged changes are committed: in whatever way
      it wrote the log and the pool, with evictions in between, when the tree's page store is in order and
      nothing is left to log, the commit is allowed. */
  lemma TreeTransactionsAreLogged(s: Machine, events: seq<Event>, store: Paging.Pager)
    requires Inv(s) && s.phase.Running? && Disciplined(s, Begin)
    requires InTransaction(events) && Allowed(Do(s, Begin), events)
    requires store.Valid() && store.unlogged == {} && store.base == s.view
    requires store.pages == Run(Do(s, Begin), events).view && store.active == Run(Do(s, Begin), events).active
    ensures var s' := Run(Do(s, Begin), events); AllLogged(s') && Enabled(s', CommitFrame) && Disciplined(s', CommitFrame)
  {
    var s1 := Do(s, Begin);
    var s' := Run(s1, events);
    BeganClean(s);
    StepKeeps(s, Begin);
    TransactionKeepsHistory(s1, events);
    hide Fold, Committed, Inv, Allowed, Run;
    forall p | p in CommittedPages(s') ensures p in s'.active || Current(s'.view, p, CommittedPages(s')[p]) {
      assert Current(s.view, p, CommittedPages(s)[p]);
      if p != HEADER_PAGE_ID {
        assert Paging.Redoable(store.pages, store.active, store.base, p);
      }
    }
  }

  lemma BeganClean(s: Machine)
    requires Inv(s) && s.phase.Running? && Disciplined(s, Begin)
    ensures Clean(s)
  {
    hide Fold, Committed;
  }

  lemma {:induction false} RedoOnly(txns: seq<Images>, p: PageId)
    requires p in Redo(txns)
    ensures exists r :: 0 <= r < |txns| && p in txns[r]
  {
    var n := |txns| - 1;
    if p !in txns[n] {
      RedoOnly(txns[..n], p);
      var r :| 0 <= r < n && p in txns[..n][r];
      assert p in txns[r];
    }
  }

  /** Pages that are not dirty are in the file as they are in the pool. */
  ghost predicate Flushed(file: Images, pool: Images, dirty: set<PageId>) {
    forall p :: p in pool && p !in dirty ==> Current(file, p, pool[p])
  }

  lemma FlushedButOne(file: Images, pool: Images, dirty: set<PageId>, p: PageId, image: Page)
    requires Flushed(file, pool, dirty)
    ensures Flushed(file, pool[p := image], dirty + {p})
  {
  }

  // ------------------------------------------------------------ single events

  lemma CommitDoneStep(s: Machine)
    requires s.phase.Committing? && forall p :: p in s.active ==> Current(s.view, p, s.active[p])
    ensures Enabled(s, CommitDone) && Disciplined(s, CommitDone)
    ensures Do(s, CommitDone) == s.(active := map[], txn := None, phase := Running)
  {
  }

  lemma CommitApplyStep(s: Machine, p: PageId)
    requires s.phase.Committing? && p in s.active && p in s.view
    ensures Enabled(s, CommitApply(p)) && Disciplined(s, CommitApply(p))
    ensures Do(s, CommitApply(p)) == s.(view := s.view[p := s.active[p]])
  {
  }

  lemma RedoPageStep(s: Machine, images: Images, p: PageId)
    requires s.phase.Recovering? && s.phase.redone < |Replayed(s.log)| && images == Replayed(s.log)[s.phase.redone]
    requires p in images && p in s.view
    ensures Enabled(s, RedoPage(p)) && Disciplined(s, RedoPage(p))
    ensures Do(s, RedoPage(p)) == s.(view := s.view[p := images[p]])
  {
  }

  lemma RedoDoneStep(s: Machine, images: Images)
    requires s.phase.Recovering? && s.phase.redone < |Replayed(s.log)| && images == Replayed(s.log)[s.phase.redone]
    requires forall p :: p in images ==> Current(s.view, p, images[p])
    ensures Enabled(s, RedoDone) && Disciplined(s, RedoDone)
    ensures Do(s, RedoDone) == s.(phase := Recovering(s.phase.redone + 1))
  {
  }

  lemma WritebackStep(s: Machine, p: PageId)
    requires p in s.view
    ensures Enabled(s, Writeback(p)) && (Inv(s) && !s.phase.InDoubt? && Clean(s) ==> Disciplined(s, Writeback(p)))
    ensures Do(s, Writeback(p)) == s.(file := s.file[p := s.view[p]], unsynced := s.unsynced + {(p, s.view[p])})
  {
    hide Inv, Harmless;
    if Inv(s) && !s.phase.InDoubt? && Clean(s) {
      CleanIsHarmless(s, p);
    }
  }

  lemma ReadLogStep(s: Machine)
    requires s.phase.Recovering?
    ensures Enabled(s, ReadLog) && Disciplined(s, ReadLog)
    ensures Do(s, ReadLog) == s.(nextTxn := NextAfter(s.log, s.nextTxn))
  {
  }

  lemma SyncStep(s: Machine)
    ensures Enabled(s, Sync) && Disciplined(s, Sync)
    ensures Do(s, Sync) == s.(durable := s.file, durableLength := s.length, unsynced := {})
  {
  }

  lemma CleanFrame(s: Machine, s': Machine)
    requires s'.view == s.view && s'.init == s.init && s'.history == s.history
    ensures Clean(s') <==> Clean(s)
  {
    hide Fold;
    assert CommittedPages(s') == CommittedPages(s);
  }

  lemma IdleIsClean(s: Machine)
    requires s.phase.Running? && s.txn.None?
    ensures Inv(s) ==> Clean(s)
  {
    hide Fold, Committed;
  }

  class WalManager {
    var log: seq<Frame>
    var activePages: Images
    var nextTransactionId: nat
    // the buffer pool and the file below it
    var pool: Images
    var dirty: set<PageId>
    ghost var s: Machine

    /** The object is in the state of the machine. */
    ghost predicate Mirrors()
      reads this
    {
      && log == s.log && activePages == s.active && nextTransactionId == s.nextTxn && pool == s.view
      && Flushed(s.file, pool, dirty) && ActiveInPool(s)
    }

    ghost predicate Valid()
      reads this
    {
      Inv(s) && Mirrors()
    }

    /** The machine makes a step, and if clients keep to the rules the invariant stays. */
    ghost method Step(e: Event)
      requires Enabled(s, e)
      modifies this`s
      ensures s == Do(old(s), e) && (old(Inv(s) && Disciplined(s, e)) ==> Inv(s))
    {
      hide Inv, Enabled, Disciplined, Do;
      if Inv(s) && Disciplined(s, e) {
        StepKeeps(s, e);
      }
      s := Do(s, e);
    }

    method Begin() returns (transactionId: nat)
      requires Mirrors() && Enabled(s, Event.Begin)
      modifies this`activePages, this`nextTransactionId, this`s
      ensures Mirrors() && s == Do(old(s), Event.Begin) && s.txn == Some(transactionId)
      ensures old(Valid() && Disciplined(s, Event.Begin)) ==> Valid()
    {
      hide Inv;
      activePages := map[];
      transactionId := nextTransactionId;
      nextTransactionId := nextTransactionId + 1;
      Step(Event.Begin);
    }

    method Write(transactionId: nat, pageId: PageId, page: Page)
      requires Mirrors() && s.txn == Some(transactionId) && Enabled(s, Log(pageId, page))
      modifies this`log, this`activePages, this`s
      ensures Mirrors() && s == Do(old(s), Log(pageId, page)) && (old(Valid()) ==> Valid())
    {
      hide Inv;
      log := log + [PageWrite(transactionId, pageId, page)];
      activePages := activePages[pageId := page];
      Step(Log(pageId, page));
    }

    /** The log is synced up to the commit frame, then the images are copied into the pool.  The invariant
        stays exactly if everything that was changed had been logged. */
    method Commit(transactionId: nat)
      requires Mirrors() && s.txn == Some(transactionId) && s.phase.Running?
      modifies this
      ensures Mirrors() && activePages == map[] && CopiedBack(old(s), pool) && s == AfterCommit(old(s), pool)
      ensures log == old(log) + [Frame.Commit(transactionId)] && nextTransactionId == old(nextTransactionId)
      ensures old(Valid()) ==> (Valid() <==> old(AllLogged(s)))
    {
      hide Inv, AllLogged, Flushed, Enabled, Disciplined, Do;
      ghost var s0 := s;
      CommitSteps(s);
      log := log + [Frame.Commit(transactionId)];
      Step(CommitFrame);
      Step(CommitSync);
      ApplyImages();
      CommitDoneStep(s);
      Step(CommitDone);
      activePages := map[];
      if Inv(s0) {
        CommitIsSafeIff(s0, pool);
      }
    }

    /** The copy-back of a commit. */
    method ApplyImages()
      requires Mirrors() && s.phase.Committing?
      modifies this`pool, this`dirty, this`s
      ensures Mirrors() && s == old(s).(view := pool) && CopiedBack(old(s), pool) && (old(Valid()) ==> Valid())
    {
      hide Inv, Enabled, Disciplined, Do, Flushed;
      var order := KeysOf(activePages);
      for i := 0 to |order|
        invariant Mirrors() && s == old(s).(view := pool) && pool.Keys == old(pool).Keys && (old(Inv(s)) ==> Inv(s))
        invariant forall p :: p in pool ==> pool[p] == if p in order[..i] then activePages[p] else old(pool)[p]
      {
        var id := order[i];
        assert id in activePages && id in pool;
        assert order[..i + 1] == order[..i] + [id];
        FlushedButOne(s.file, pool, dirty, id, activePages[id]);
        pool := pool[id := activePages[id]];
        dirty := dirty + {id};
        CommitApplyStep(s, id);
        Step(CommitApply(id));
      }
      assert order[..|order|] == order;
    }

    method Abort(transactionId: nat)
      requires Mirrors() && s.txn == Some(transactionId) && Enabled(s, Event.Abort)
      modifies this`activePages, this`s
      ensures Mirrors() && s == Do(old(s), Event.Abort)
      ensures old(Valid()) ==> (Valid() <==> old(Clean(s)))
    {
      hide Inv, Clean;
      if Inv(s) {
        LeavingIsSafeIff(s, Event.Abort);
      }
      activePages := map[];
      Step(Event.Abort);
    }

    /** BufferPool::flush_all: the dirty pages are written, then the file is synced. */
    method FlushAll()
      requires Mirrors()
      modifies this`dirty, this`s
      ensures Mirrors() && s == old(s).(durable := s.file, file := s.file, unsynced := {}, durableLength := s.length)
      ensures forall p :: p in pool ==> Current(s.durable, p, pool[p])
      ensures old(Valid() && !s.phase.InDoubt? && Clean(s)) ==> Valid()
    {
      hide Inv, Enabled, Disciplined, Do, Clean;
      var order := KeysOf(pool);
      for i := 0 to |order|
        invariant Mirrors() && s == old(s).(file := s.file, unsynced := s.unsynced)
        invariant old(Inv(s) && !s.phase.InDoubt? && Clean(s)) ==> Inv(s)
        invariant forall p :: p in order[..i] ==> Current(s.file, p, pool[p])
      {
        var id := order[i];
        assert id in pool;
        assert order[..i + 1] == order[..i] + [id];
        if id in dirty {
          CleanFrame(old(s), s);
          WritebackStep(s, id);
          Step(Writeback(id));
          dirty := dirty - {id};
        }
      }
      assert order[..|order|] == order;
      SyncStep(s);
      Step(Sync);
    }

    /** Everything in the pool reaches the disk, then the log is emptied.  The invariant stays exactly if no
        change in the pool was left uncommitted. */
    method Checkpoint()
      requires Mirrors() && activePages == map[]
      requires s.phase.Running? || (s.phase.Recovering? && s.phase.redone == |Replayed(s.log)|)
      modifies this
      ensures Mirrors() && s.phase.Running? && log == [] && s.history == old(s.history) && s.init == old(s.init)
      ensures pool == old(pool) && forall p :: p in pool ==> Current(s.durable, p, pool[p])
      ensures nextTransactionId == old(nextTransactionId)
      ensures old(Valid()) ==> (Valid() <==> old(Clean(s)))
    {
      hide Inv, Replayed, Clean, Flushed;
      FlushAll();
      CleanFrame(old(s), s);
      Step(Truncate);
      log := [];
      CleanFrame(old(s), s);
      IdleIsClean(s);
    }

    /** The first pass over the log: images by transaction, the committed transactions in order, and the
        transaction number to go on with. */
    static method ReadLog(log: seq<Frame>, nextTransactionId: nat)
      returns (txnPages: map<nat, Images>, committed: seq<nat>, next: nat)
      ensures committed == CommitIds(log) && next == NextAfter(log, nextTransactionId)
      ensures forall t :: ImagesOf(log, t) == if t in txnPages then txnPages[t] else map[]
    {
      txnPages, committed, next := map[], [], nextTransactionId;
      for i := 0 to |log|
        invariant committed == CommitIds(log[..i]) && next == NextAfter(log[..i], nextTransactionId)
        invariant forall t :: ImagesOf(log[..i], t) == if t in txnPages then txnPages[t] else map[]
      {
        var frame := log[i];
        assert log[..i + 1] == log[..i] + [frame];
        Append(log[..i], frame);
        assert log[..i + 1][..i] == log[..i];
        match frame {
          case PageWrite(t, id, image) =>
            var images := if t in txnPages then txnPages[t] else map[];
            txnPages := txnPages[t := images[id := image]];
          case Commit(t) =>
            committed := committed + [t];
            if t >= next {
              next := t + 1;
            }
        }
      }
      assert log[..|log|] == log;
    }

    /** The second pass for one transaction; a page beyond the end of the file cannot be fetched. */
    method RedoPages(images: Images) returns (ok: bool)
      requires Valid() && s.phase.Recovering? && s.phase.redone < |Replayed(s.log)| && images == Replayed(s.log)[s.phase.redone]
      modifies this`pool, this`dirty, this`s
      ensures Valid() && s == old(s).(view := pool) && pool.Keys == old(pool).Keys
      ensures ok <==> forall p :: p in images ==> p in pool
      ensures ok ==> forall p :: p in pool ==> pool[p] == if p in images then images[p] else old(pool)[p]
    {
      hide Inv, Replayed, Enabled, Disciplined, Do, Flushed;
      var order := KeysOf(images);
      for i := 0 to |order|
        invariant Valid() && s == old(s).(view := pool) && pool.Keys == old(pool).Keys
        invariant forall p :: p in pool ==> pool[p] == if p in order[..i] then images[p] else old(pool)[p]
        invariant forall p :: p in order[..i] ==> p in pool
      {
        var id := order[i];
        assert id in images;
        assert order[..i + 1] == order[..i] + [id];
        if id !in pool {
          return false;
        }
        FlushedButOne(s.file, pool, dirty, id, images[id]);
        pool := pool[id := images[id]];
        dirty := dirty + {id};
        RedoPageStep(s, images, id);
        Step(RedoPage(id));
      }
      assert order[..|order|] == order;
      ok := true;
    }

    method RedoTransaction(images: Images) returns (ok: bool)
      requires Valid() && s.phase.Recovering? && s.phase.redone < |Replayed(s.log)| && images == Replayed(s.log)[s.phase.redone]
      modifies this`pool, this`dirty, this`s
      ensures Valid() && pool.Keys == old(pool).Keys
      ensures ok <==> forall p :: p in images ==> p in pool
      ensures s == old(s).(view := pool, phase := Recovering(old(s.phase.redone) + if ok then 1 else 0))
      ensures ok ==> forall p :: p in pool ==> pool[p] == if p in images then images[p] else old(pool)[p]
    {
      hide Inv, Replayed, Enabled, Disciplined, Do, Flushed;
      ok := RedoPages(images);
      if ok {
        RedoDoneStep(s, images);
        Step(RedoDone);
      }
    }

    /** The second pass: the committed transactions in order, as long as their pages can be fetched. */
    method RedoAll(txnPages: map<nat, Images>, committed: seq<nat>) returns (ok: bool)
      requires Valid() && s.phase == Recovering(0) && committed == CommitIds(log)
      requires forall t :: ImagesOf(log, t) == if t in txnPages then txnPages[t] else map[]
      modifies this`pool, this`dirty, this`s
      ensures Valid() && pool.Keys == old(pool).Keys
      ensures ok <==> old(RecoveryCompletes(s))
      ensures s == old(s).(view := pool, phase := s.phase)
      ensures ok ==> s.phase == Recovering(|committed|)
      ensures ok ==> forall p :: p in pool ==> Current(old(RecoveredPages(s)), p, pool[p])
    {
      hide Inv, Replayed, Fold, Redo, Flushed;
      ghost var pool0, txns := pool, Replayed(log);
      assert txns[..0] == [];
      FoldNothing(pool0);
      for r := 0 to |committed|
        invariant Valid() && s == old(s).(view := pool, phase := Recovering(r)) && pool.Keys == pool0.Keys
        invariant forall p :: p in pool ==> Current(Fold(pool0, txns[..r]), p, pool[p])
        invariant forall i, p :: 0 <= i < r && p in txns[i] ==> p in pool
      {
        var t := committed[r];
        var images := if t in txnPages then txnPages[t] else map[];
        assert images == txns[r] by { ReplayedAt(log, r); }
        assert txns[..r + 1] == txns[..r] + [txns[r]];
        FoldStep(pool0, txns[..r], txns[r]);
        var redone := RedoTransaction(images);
        if !redone {
          MissingPage(pool0, txns, r);
          return false;
        }
      }
      assert txns[..|txns|] == txns;
      AllPagesFound(pool0, txns);
      ok := true;
    }

    /** Committed transactions are redone in order, then everything is checkpointed; recovery fails exactly
        when a committed image belongs to a page beyond the end of the file. */
    method Recover() returns (ok: bool)
      requires Valid() && s.phase == Recovering(0)
      modifies this
      ensures Valid() && s.history == old(s.history) && s.init == old(s.init)
      ensures ok <==> old(RecoveryCompletes(s))
      ensures ok ==> s.phase.Running? && log == [] && pool.Keys == old(pool).Keys
      ensures ok ==> forall p :: p in pool ==>
                Current(old(RecoveredPages(s)), p, pool[p]) && Current(s.durable, p, pool[p])
      ensures ok ==> forall t :: t in CommitIds(old(log)) ==> t < nextTransactionId
    {
      hide Inv, Replayed, Fold, Redo, Clean, Enabled, Disciplined, Do, Flushed;
      var txnPages, committed, next := ReadLog(log, nextTransactionId);
      nextTransactionId := next;
      ReadLogStep(s);
      Step(Event.ReadLog);
      ok := RedoAll(txnPages, committed);
      if ok {
        RedoneIsClean(s);
        forall t | t in CommitIds(log) ensures t < nextTransactionId {
          NextAfterAll(log, old(nextTransactionId), t);
        }
        EmptyActive(s);
        Checkpoint();
      }
    }
  }

  lemma EmptyActive(s: Machine)
    requires Inv(s) && s.phase.Recovering?
    ensures s.active == map[]
  {
  }

  lemma MissingPage(pages: Images, txns: seq<Images>, r: nat)
    requires r < |txns| && !(forall p :: p in txns[r] ==> p in pages)
    ensures !(forall p :: p in Redo(txns) ==> p in pages)
  {
    hide Redo;
    if forall p :: p in Redo(txns) ==> p in pages {
      forall p | p in txns[r] ensures p in pages {
        RedoHas(txns, r, p);
      }
    }
  }

  lemma AllPagesFound(pages: Images, txns: seq<Images>)
    requires forall i, p :: 0 <= i < |txns| && p in txns[i] ==> p in pages
    ensures forall p :: p in Redo(txns) ==> p in pages
  {
    hide Redo;
    forall p | p in Redo(txns) ensures p in pages {
      RedoOnly(txns, p);
    }
  }

  lemma ReplayedAt(log: seq<Frame>, r: nat)
    requires r < |CommitIds(log)|
    ensures Replayed(log)[r] == ImagesOf(log, CommitIds(log)[r])
  {
  }
}
