/** Crash and recovery, as a machine (src/wal/wal_manager.cpp:30-132, src/storage/buffer_pool.cpp:61-119,
    src/storage/disk_manager.cpp:62-150). */
module Recovery {
  import opened Pages
  import opened Wrappers
  import opened RedoLog

  /** In doubt: the commit frame is written, but the log is not synced.  Committing: it is synced, and
      the images are being copied into the pool.  Recovering: `redone` transactions have been redone. */
  datatype Phase = Running | InDoubt | Committing | Recovering(redone: nat)

  /** The log before a truncation that has not reached the disk, and where its transactions begin. */
  datatype Stale = Stale(log: seq<Frame>, from: nat)

  datatype Machine = Machine(
    // the database file: its pages on the disk, the page writes that may or may not have reached the
    // disk since the last sync, and its pages as the operating system shows them
    durable: Images, durableLength: nat, unsynced: set<(PageId, Page)>, file: Images,
    // the latest contents of every page, as the buffer pool shows them, and the file's page count
    view: Images, length: nat,
    // the log file, how much of it is synced, and what else a crash may leave in its place
    log: seq<Frame>, synced: nat, stale: Option<Stale>,
    // the log manager's fields, and the running transaction
    active: Images, txn: Option<nat>, nextTxn: nat,
    phase: Phase,
    // for the statement only: the pages the database began with, the transactions committed since, how
    // many of them were reported committed, and how many the log no longer holds
    init: Images, history: seq<Images>, acked: nat, from: nat)

  datatype Survivor = Prefix(k: nat) | Old

  /** One event is one step of the program, of its environment, or a crash.  Loops over pages (the copy-back
      of a commit, the redo of a transaction, the flush of a checkpoint) are one event a page, so that
      evictions and crashes may fall between any two of them. */
  datatype Event =
    | Begin
    | Log(p: PageId, image: Page)
    | Modify(p: PageId, image: Page)
    | Extend
    | CommitFrame
    | CommitSync
    | CommitApply(p: PageId)
    | CommitDone
    | Abort
    | Writeback(p: PageId)
    | Sync
    | Truncate
    | Crash(survivor: Survivor, left: Images, length: nat)
    | ReadLog
    | RedoPage(p: PageId)
    | RedoDone

  ghost predicate FileOf(pages: Images, length: nat) {
    forall p :: p in pages <==> 0 <= p < length
  }

  predicate SurvivingPage(s: Machine, p: PageId, page: Page) {
    (p in s.durable && s.durable[p] == page) || (p, page) in s.unsynced
  }

  /** What a crash may leave of the database file: of each page the synced contents or any later write,
      and of the file's length anything from the synced length on. */
  ghost predicate SurvivingFile(s: Machine, left: Images, length: nat) {
    && FileOf(left, length) && s.durableLength <= length
    && (forall p :: p in left ==> SurvivingPage(s, p, left[p]))
  }

  function SurvivingLog(s: Machine, survivor: Survivor): seq<Frame>
    requires survivor.Prefix? ==> survivor.k <= |s.log|
    requires survivor.Old? ==> s.stale.Some?
  {
    match survivor
    case Prefix(k) => s.log[..k]
    case Old => s.stale.value.log
  }

  function SurvivingHistory(s: Machine, survivor: Survivor): seq<Images>
    requires survivor.Prefix? ==> survivor.k <= |s.log| && s.from + |Committed(s.log[..survivor.k])| <= |s.history|
    requires survivor.Old? ==> s.from <= |s.history|
  {
    match survivor
    case Prefix(k) => s.history[..s.from + |Committed(s.log[..k])|]
    case Old => s.history[..s.from]
  }

  predicate Current(pages: Images, p: PageId, page: Page) { p in pages && pages[p] == page }

  ghost predicate Enabled(s: Machine, e: Event) {
    match e
    case Begin => s.phase.Running?
    case Log(p, _) => s.phase.Running? && s.txn.Some? && p in s.view
    case Modify(p, _) => s.phase.Running? && s.txn.Some? && p in s.view
    case Extend => s.phase.Running?
    case CommitFrame => s.phase.Running? && s.txn.Some?
    case CommitSync => s.phase.InDoubt?
    case CommitApply(p) => s.phase.Committing? && p in s.active && p in s.view
    case CommitDone => s.phase.Committing? && forall p :: p in s.active ==> Current(s.view, p, s.active[p])
    case Abort => s.phase.Running? && s.txn.Some?
    case Writeback(p) => p in s.view
    case Sync => true
    case Truncate =>
      && (if s.phase.Recovering? then s.phase.redone == |Replayed(s.log)| else s.phase.Running? && s.active == map[])
      && s.unsynced == {} && forall p :: p in s.view ==> Current(s.durable, p, s.view[p])
    case Crash(survivor, left, length) =>
      && SurvivingFile(s, left, length)
      && (survivor.Prefix? ==> s.synced <= survivor.k <= |s.log| && s.from + |Committed(s.log[..survivor.k])| <= |s.history|)
      && (survivor.Old? ==> s.stale.Some? && s.from <= |s.history|)
    case ReadLog => s.phase.Recovering?
    case RedoPage(p) =>
      s.phase.Recovering? && s.phase.redone < |Replayed(s.log)| && p in Replayed(s.log)[s.phase.redone] && p in s.view
    case RedoDone =>
      && s.phase.Recovering? && s.phase.redone < |Replayed(s.log)|
      && forall p :: p in Replayed(s.log)[s.phase.redone] ==> Current(s.view, p, Replayed(s.log)[s.phase.redone][p])
  }

  /** One more than the largest committed transaction number, and at least `least`. */
  function NextAfter(log: seq<Frame>, least: nat): (next: nat) {
    if log == [] then least
    else
      var n := |log| - 1;
      var before := NextAfter(log[..n], least);
      if log[n].Commit? && log[n].txn >= before then log[n].txn + 1 else before
  }

  function Do(s: Machine, e: Event): Machine
    requires Enabled(s, e)
  {
    match e
    case Begin => s.(active := map[], txn := Some(s.nextTxn), nextTxn := s.nextTxn + 1)
    case Log(p, image) => s.(log := s.log + [PageWrite(s.txn.value, p, image)], active := s.active[p := image])
    case Modify(p, image) => s.(view := s.view[p := image])
    case Extend =>
      var p := s.length;
      s.(view := s.view[p := Blank], file := s.file[p := Blank], unsynced := s.unsynced + {(p, Blank)},
         length := s.length + 1)
    case CommitFrame =>
      s.(log := s.log + [Commit(s.txn.value)], history := s.history + [s.active], phase := InDoubt)
    case CommitSync => s.(synced := |s.log|, stale := None, acked := |s.history|, phase := Committing)
    case CommitApply(p) => s.(view := s.view[p := s.active[p]])
    case CommitDone => s.(active := map[], txn := None, phase := Running)
    case Abort => s.(active := map[], txn := None)
    case Writeback(p) => s.(file := s.file[p := s.view[p]], unsynced := s.unsynced + {(p, s.view[p])})
    case Sync => s.(durable := s.file, durableLength := s.length, unsynced := {})
    case Truncate =>
      s.(log := [], synced := 0,
         stale := if s.stale.Some? then s.stale else Some(Stale(s.log, s.from)),
         txn := None, phase := Running, from := |s.history|)
    case Crash(survivor, left, length) =>
      var log := SurvivingLog(s, survivor);
      var history := SurvivingHistory(s, survivor);
      s.(durable := left, durableLength := length, unsynced := {}, file := left, view := left, length := length,
         log := log, synced := |log|, stale := None,
         active := map[], txn := None, nextTxn := 1, phase := Recovering(0),
         history := history, acked := |history|, from := if survivor.Old? then s.stale.value.from else s.from)
    case ReadLog => s.(nextTxn := NextAfter(s.log, s.nextTxn))
    case RedoPage(p) => s.(view := s.view[p := Replayed(s.log)[s.phase.redone][p]])
    case RedoDone => s.(phase := Recovering(s.phase.redone + 1))
  }

  // ------------------------------------------------------------ what clients must keep to

  function Base(s: Machine): Images
    requires s.from <= |s.history|
  {
    Fold(s.init, s.history[..s.from])
  }

  function CommittedPages(s: Machine): Images { Fold(s.init, s.history) }

  /** The synced part of the log has an image of the page. */
  predicate Protected(s: Machine, p: PageId)
    requires s.synced <= |s.log|
  {
    p in Redo(Committed(s.log[..s.synced]))
  }

  /** Writing the page back can do no harm: it is unchanged since the last checkpoint, unknown to all
      committed transactions, or its committed contents are in the synced log. */
  predicate Harmless(s: Machine, p: PageId)
    requires s.synced <= |s.log| && s.from <= |s.history| && p in s.view
  {
    Protected(s, p) || p !in Base(s) || s.view[p] == Base(s)[p]
  }

  /** The pool holds no uncommitted change. */
  predicate Clean(s: Machine) {
    forall p :: p in CommittedPages(s) ==> Current(s.view, p, CommittedPages(s)[p])
  }

  /** Every page changed in the pool has a logged image. */
  predicate AllLogged(s: Machine) {
    forall p :: p in CommittedPages(s) ==> p in s.active || Current(s.view, p, CommittedPages(s)[p])
  }

  /** The rules clients keep to: they commit only what they logged, they leave a transaction without
      committing it only if the pool is clean, and no uncommitted change is written back that the log
      does not protect. */
  ghost predicate Disciplined(s: Machine, e: Event) {
    match e
    case Begin => s.txn.Some? ==> Clean(s)
    case CommitFrame => AllLogged(s)
    case Abort => Clean(s)
    case Truncate => s.txn.Some? ==> Clean(s)
    case Writeback(p) => s.synced <= |s.log| && s.from <= |s.history| && p in s.view && Harmless(s, p)
    case _ => true
  }

  // ------------------------------------------------------------ the invariant

  ghost predicate LogOk(s: Machine) {
    && WellFormed(s.log) && s.synced <= |s.log| && s.from <= s.acked <= |s.history|
    && Committed(s.log) == s.history[s.from..]
    && |Committed(s.log[..s.synced])| == s.acked - s.from
    && |s.history| == s.acked + (if s.phase.InDoubt? then 1 else 0)
    && (s.phase.Recovering? ==> s.synced == |s.log| && s.txn.None?)
  }

  /** The transaction numbers in the log are used up, and the running transaction's is not yet committed. */
  ghost predicate NumbersOk(s: Machine) {
    && (!s.phase.Recovering? ==> forall i :: 0 <= i < |s.log| ==> s.log[i].txn < s.nextTxn)
    && (s.txn.None? ==> s.active == map[])
    && (s.phase.InDoubt? || s.phase.Committing? ==>
          s.txn.Some? && |s.history| > s.from && s.history[|s.history| - 1] == s.active)
    && (s.txn.Some? && s.phase.Running? ==>
          s.txn.value < s.nextTxn && s.txn.value !in CommitIds(s.log) && ImagesOf(s.log, s.txn.value) == s.active)
  }

  ghost predicate StaleOk(s: Machine) {
    s.stale.Some? ==>
      var before := s.stale.value;
      && s.synced == 0 && s.acked == s.from && before.from <= s.from <= |s.history|
      && WellFormed(before.log) && Committed(before.log) == s.history[before.from..s.from]
  }

  /** A crash can leave only these contents of the page. */
  ghost predicate OnlyOnDisk(s: Machine, p: PageId, page: Page) {
    p in s.durable && forall other {:trigger SurvivingPage(s, p, other)} :: SurvivingPage(s, p, other) ==> other == page
  }

  /** Of a page that the synced log does not protect, a crash can leave only the contents it had at the
      last checkpoint. */
  ghost predicate PageSafe(s: Machine, p: PageId)
    requires s.synced <= |s.log| && s.from <= |s.history|
  {
    p in Base(s) && !Protected(s, p) ==> OnlyOnDisk(s, p, Base(s)[p])
  }

  ghost predicate DiskOk(s: Machine)
    requires s.synced <= |s.log| && s.from <= |s.history|
  {
    && FileOf(s.view, s.length) && FileOf(s.file, s.length) && FileOf(s.durable, s.durableLength)
    && s.durableLength <= s.length
    && (forall p :: p in s.file ==> SurvivingPage(s, p, s.file[p]))
    && (forall p {:trigger PageSafe(s, p)} :: PageSafe(s, p))
  }

  /** Where the pool may differ from the committed pages. */
  ghost predicate ViewOk(s: Machine)
    requires s.from <= |s.history|
  {
    match s.phase
    case Running =>
      && (s.txn.None? ==> Clean(s))
      && (forall p :: p in CommittedPages(s) ==> p in s.view) && (forall p :: p in s.active ==> p in s.view)
    case InDoubt => AllLogged(s) && (forall p :: p in CommittedPages(s) ==> p in s.view)
    case Committing => AllLogged(s) && (forall p :: p in CommittedPages(s) ==> p in s.view)
    case Recovering(r) =>
      && r <= |Committed(s.log)|
      && (forall p :: p in Base(s) && p !in Redo(Committed(s.log)) ==> Current(s.view, p, Base(s)[p]))
      && (forall p :: p in Redo(Committed(s.log)[..r]) ==>
            p in s.view && (s.view[p] == Redo(Committed(s.log)[..r])[p] || (r < |Committed(s.log)| && p in Committed(s.log)[r])))
  }

  ghost predicate Inv(s: Machine) {
    LogOk(s) && NumbersOk(s) && StaleOk(s) && DiskOk(s) && ViewOk(s)
  }

  // ------------------------------------------------------------ what the invariant says of a page

  /** A committed page is protected by the log or the same as at the last checkpoint. */
  lemma CommittedAt(s: Machine, p: PageId)
    requires LogOk(s)
    ensures p in CommittedPages(s) <==> p in Base(s) || p in Redo(Committed(s.log))
    ensures p in Redo(Committed(s.log)) ==> CommittedPages(s)[p] == Redo(Committed(s.log))[p]
    ensures p in Base(s) && p !in Redo(Committed(s.log)) ==> CommittedPages(s)[p] == Base(s)[p]
    ensures Protected(s, p) ==> p in Redo(Committed(s.log))
    ensures !s.phase.InDoubt? ==> (Protected(s, p) <==> p in Redo(Committed(s.log)))
  {
    assert s.history == s.history[..s.from] + s.history[s.from..];
    FoldJoin(s.init, s.history[..s.from], s.history[s.from..]);
    FoldAt(Base(s), Committed(s.log), p);
    CommittedPrefix(s.log, s.synced);
    if Protected(s, p) {
      RedoGrows(Committed(s.log[..s.synced]), Committed(s.log), p);
    }
    if !s.phase.InDoubt? {
      assert Committed(s.log[..s.synced]) == Committed(s.log);
    }
  }

  // ------------------------------------------------------------ every step keeps the invariant

  /** What a crash may leave of a page stays good while the last checkpoint is the same. */
  lemma SafeFrame(s: Machine, s': Machine)
    requires s.synced <= |s.log| && s.from <= |s.history| && s'.synced <= |s'.log| && s'.from <= |s'.history|
    requires forall p {:trigger PageSafe(s, p)} :: PageSafe(s, p)
    requires s'.init == s.init && s'.from == s.from && s'.history[..s.from] == s.history[..s.from]
    requires s'.log[..s'.synced] == s.log[..s.synced] || forall p :: Protected(s, p) ==> Protected(s', p)
    requires s'.durable == s.durable || forall p :: p in s.durable ==> p in s'.durable
    requires forall p, page {:trigger SurvivingPage(s', p, page)} :: SurvivingPage(s', p, page) ==>
      SurvivingPage(s, p, page) || Protected(s, p) || p !in Base(s) || page == Base(s)[p]
    ensures forall p {:trigger PageSafe(s', p)} :: PageSafe(s', p)
  {
    hide Redo, Fold, Committed, SurvivingPage;
    assert Base(s') == Base(s);
    forall p ensures PageSafe(s', p) {
      assert PageSafe(s, p);
      if p in Base(s) && !Protected(s, p) {
        forall other | SurvivingPage(s', p, other) ensures other == Base(s)[p] {
          assert SurvivingPage(s, p, other) || other == Base(s)[p];
        }
      }
    }
  }

  lemma DiskFrame(s: Machine, s': Machine)
    requires s.synced <= |s.log| && s.from <= |s.history| && s'.synced <= |s'.log| && s'.from <= |s'.history|
    requires DiskOk(s) && s'.init == s.init && s'.from == s.from && s'.history[..s.from] == s.history[..s.from]
    requires s'.log[..s'.synced] == s.log[..s.synced] || forall p :: Protected(s, p) ==> Protected(s', p)
    requires s'.durable == s.durable && s'.durableLength == s.durableLength && s'.unsynced == s.unsynced
    requires s'.file == s.file && s'.view == s.view && s'.length == s.length
    ensures DiskOk(s')
  {
    hide PageSafe, Fold, Committed;
    SafeFrame(s, s');
  }

  lemma BooksFrame(s: Machine, s': Machine)
    requires LogOk(s) && NumbersOk(s) && StaleOk(s)
    requires s' == s.(durable := s'.durable, durableLength := s'.durableLength, unsynced := s'.unsynced,
                      file := s'.file, view := s'.view, length := s'.length)
    ensures LogOk(s') && NumbersOk(s') && StaleOk(s')
    ensures s.synced <= |s.log| && s.from <= |s.history|
  {
    hide Committed, WellFormed;
  }

  lemma Whole(s: Machine)
    requires LogOk(s) && NumbersOk(s) && StaleOk(s) && DiskOk(s) && ViewOk(s)
    ensures Inv(s)
  {
  }

  lemma StepBegin(s: Machine)
    requires Inv(s) && Enabled(s, Begin) && Disciplined(s, Begin)
    ensures Inv(Do(s, Begin))
  {
    hide DiskOk, Fold, Committed, WellFormed;
    NoNumberYet(s);
    DiskFrame(s, Do(s, Begin));
    Whole(Do(s, Begin));
  }

  /** The next transaction number occurs nowhere in the log. */
  lemma NoNumberYet(s: Machine)
    requires NumbersOk(s) && !s.phase.Recovering?
    ensures s.nextTxn !in CommitIds(s.log) && ImagesOf(s.log, s.nextTxn) == map[]
  {
    CommitIdsMembers(s.log, s.nextTxn);
    ImagesGrowOnly(s.log, 0, s.nextTxn);
  }

  lemma StepLog(s: Machine, p: PageId, image: Page)
    requires Inv(s) && Enabled(s, Log(p, image))
    ensures Inv(Do(s, Log(p, image)))
  {
    hide DiskOk, Fold, Committed, WellFormed;
    var f := PageWrite(s.txn.value, p, image);
    Append(s.log, f);
    WellFormedAppend(s.log, f);
    assert Do(s, Log(p, image)).log[..s.synced] == s.log[..s.synced];
    DiskFrame(s, Do(s, Log(p, image)));
    Whole(Do(s, Log(p, image)));
  }

  lemma StepModify(s: Machine, p: PageId, image: Page)
    requires Inv(s) && Enabled(s, Modify(p, image))
    ensures Inv(Do(s, Modify(p, image)))
  {
    hide PageSafe, Fold, Committed, WellFormed, LogOk, NumbersOk, StaleOk;
    BooksFrame(s, Do(s, Modify(p, image)));
    SafeFrame(s, Do(s, Modify(p, image)));
    Whole(Do(s, Modify(p, image)));
  }

  lemma StepExtend(s: Machine)
    requires Inv(s) && Enabled(s, Extend)
    ensures Inv(Do(s, Extend))
  {
    hide PageSafe, Fold, Committed, WellFormed, LogOk, NumbersOk, StaleOk;
    BooksFrame(s, Do(s, Extend));
    CommittedAt(s, s.length);
    SafeFrame(s, Do(s, Extend));
    Whole(Do(s, Extend));
  }

  lemma CommitFrameHistory(s: Machine)
    requires LogOk(s) && StaleOk(s) && Enabled(s, CommitFrame)
    ensures var s' := Do(s, CommitFrame);
      && s'.history[..s.from] == s.history[..s.from] && s'.log[..s.synced] == s.log[..s.synced]
      && s'.history[s.from..] == s.history[s.from..] + [s.active]
      && StaleOk(s')
  {
    hide Committed, WellFormed;
    var s' := Do(s, CommitFrame);
    assert s'.log[..s.synced] == s.log[..s.synced];
    assert s'.history[s.from..] == s.history[s.from..] + [s.active];
    if s.stale.Some? {
      assert s'.history[s.stale.value.from..s.from] == s.history[s.stale.value.from..s.from];
    }
  }

  lemma CommitFrameLog(s: Machine)
    requires LogOk(s) && NumbersOk(s) && StaleOk(s) && Enabled(s, CommitFrame)
    ensures LogOk(Do(s, CommitFrame)) && NumbersOk(Do(s, CommitFrame))
  {
    hide Committed, WellFormed, StaleOk;
    CommitFrameHistory(s);
    var f := Commit(s.txn.value);
    Append(s.log, f);
    WellFormedAppend(s.log, f);
  }

  lemma StepCommitFrame(s: Machine)
    requires Inv(s) && Enabled(s, CommitFrame) && Disciplined(s, CommitFrame)
    ensures Inv(Do(s, CommitFrame))
  {
    hide DiskOk, Fold, LogOk, NumbersOk, StaleOk;
    CommitFrameLog(s);
    CommitFrameHistory(s);
    FoldStep(s.init, s.history, s.active);
    LogBounds(s);
    DiskFrame(s, Do(s, CommitFrame));
    Whole(Do(s, CommitFrame));
  }

  lemma LogBounds(s: Machine)
    requires LogOk(s)
    ensures s.synced <= |s.log| && s.from <= |s.history|
  {
    hide Committed, WellFormed;
  }

  lemma StepCommitSync(s: Machine)
    requires Inv(s) && Enabled(s, CommitSync)
    ensures Inv(Do(s, CommitSync))
  {
    hide Fold, Committed, WellFormed, DiskOk;
    var s' := Do(s, CommitSync);
    assert s'.log[..s'.synced] == s.log;
    forall p ensures Protected(s, p) ==> Protected(s', p) {
      CommittedAt(s, p);
    }
    DiskFrame(s, s');
    Whole(Do(s, CommitSync));
  }

  lemma StepCommitApply(s: Machine, p: PageId)
    requires Inv(s) && Enabled(s, CommitApply(p))
    ensures Inv(Do(s, CommitApply(p)))
  {
    hide PageSafe, Fold, Committed, WellFormed, LogOk, NumbersOk, StaleOk;
    BooksFrame(s, Do(s, CommitApply(p)));
    SafeFrame(s, Do(s, CommitApply(p)));
    Whole(Do(s, CommitApply(p)));
  }

  lemma StepCommitDone(s: Machine)
    requires Inv(s) && Enabled(s, CommitDone)
    ensures Inv(Do(s, CommitDone))
  {
    hide DiskOk, Committed, WellFormed;
    DiskFrame(s, Do(s, CommitDone));
    Whole(Do(s, CommitDone));
  }

  lemma StepAbort(s: Machine)
    requires Inv(s) && Enabled(s, Abort) && Disciplined(s, Abort)
    ensures Inv(Do(s, Abort))
  {
    hide DiskOk, Fold, Committed, WellFormed;
    DiskFrame(s, Do(s, Abort));
    Whole(Do(s, Abort));
  }

  lemma StepWriteback(s: Machine, p: PageId)
    requires Inv(s) && Enabled(s, Writeback(p)) && Disciplined(s, Writeback(p))
    ensures Inv(Do(s, Writeback(p)))
  {
    hide PageSafe, Fold, Committed, WellFormed, LogOk, NumbersOk, StaleOk;
    BooksFrame(s, Do(s, Writeback(p)));
    SafeFrame(s, Do(s, Writeback(p)));
    Whole(Do(s, Writeback(p)));
  }

  lemma StepSync(s: Machine)
    requires Inv(s) && Enabled(s, Sync)
    ensures Inv(Do(s, Sync))
  {
    hide PageSafe, Fold, Committed, WellFormed, LogOk, NumbersOk, StaleOk;
    var s' := Do(s, Sync);
    BooksFrame(s, s');
    forall p, page | SurvivingPage(s', p, page) ensures SurvivingPage(s, p, page) {
      assert SurvivingPage(s, p, s.file[p]);
    }
    SafeFrame(s, s');
    Whole(Do(s, Sync));
  }

  /** When every transaction of the log has been redone, the pool holds the committed pages. */
  lemma RedoneIsClean(s: Machine)
    requires Inv(s) && s.phase.Recovering? && s.phase.redone == |Replayed(s.log)|
    ensures Clean(s)
  {
    hide Fold, Committed;
    TwoPassesAgree(s.log);
    assert Committed(s.log)[..|Committed(s.log)|] == Committed(s.log);
    forall p | p in CommittedPages(s) ensures Current(s.view, p, CommittedPages(s)[p]) {
      CommittedAt(s, p);
    }
  }

  lemma StepTruncate(s: Machine)
    requires Inv(s) && Enabled(s, Truncate) && Disciplined(s, Truncate)
    ensures Inv(Do(s, Truncate))
  {
    hide Fold;
    var s' := Do(s, Truncate);
    if s.phase.Recovering? {
      RedoneIsClean(s);
    }
    assert s.history[..|s.history|] == s.history;
    assert s.history[s.from..|s.history|] == s.history[s.from..];
    assert s'.history[s'.from..] == [];
    assert Clean(s);
    assert LogOk(s');
    assert NumbersOk(s');
    assert StaleOk(s');
    assert Base(s') == CommittedPages(s) == CommittedPages(s');
    assert ViewOk(s');
    forall p ensures PageSafe(s', p) {
      if p in Base(s') {
        assert Current(s.view, p, Base(s')[p]);
        assert OnlyOnDisk(s', p, Base(s')[p]);
      }
    }
    Whole(Do(s, Truncate));
  }

  lemma PrefixLeft(s: Machine, k: nat)
    requires LogOk(s) && s.synced <= k <= |s.log|
    ensures s.acked <= s.from + |Committed(s.log[..k])| <= |s.history|
    ensures WellFormed(s.log[..k])
    ensures s.history[..s.from + |Committed(s.log[..k])|][s.from..] == Committed(s.log[..k])
    ensures Committed(s.log[..s.synced]) <= Committed(s.log[..k])
  {
    hide Committed;
    CommittedPrefix(s.log, k);
    CommittedPrefix(s.log[..k], s.synced);
    assert s.log[..k][..s.synced] == s.log[..s.synced];
    assert s.history[..s.from + |Committed(s.log[..k])|][s.from..] == Committed(s.log)[..|Committed(s.log[..k])|];
  }

  lemma OldLeft(s: Machine)
    requires LogOk(s) && StaleOk(s) && s.stale.Some?
    ensures s.acked <= s.from && WellFormed(s.stale.value.log)
    ensures s.stale.value.from <= s.from && s.history[..s.from][s.stale.value.from..] == Committed(s.stale.value.log)
  {
    hide Committed;
    assert s.history[..s.from][s.stale.value.from..] == s.history[s.stale.value.from..s.from];
  }

  /** What a crash leaves of the log commits what it leaves of the history. */
  lemma CrashLog(s: Machine, survivor: Survivor, left: Images, length: nat)
    requires Inv(s) && Enabled(s, Crash(survivor, left, length))
    ensures LogOk(Do(s, Crash(survivor, left, length)))
    ensures var s' := Do(s, Crash(survivor, left, length));
      s'.history <= s.history && |s'.history| >= s.acked
  {
    hide Fold, Redo, DiskOk, ViewOk, Committed, WellFormed, SurvivingFile;
    var s' := Do(s, Crash(survivor, left, length));
    assert s'.log[..|s'.log|] == s'.log;
    match survivor {
      case Prefix(k) => PrefixLeft(s, k);
      case Old => OldLeft(s);
    }
  }

  /** A page that the surviving log has no image of has its committed contents in the surviving file. */
  lemma CrashPage(s: Machine, survivor: Survivor, left: Images, length: nat, p: PageId)
    requires Inv(s) && Enabled(s, Crash(survivor, left, length))
    ensures var s' := Do(s, Crash(survivor, left, length));
      p in Base(s') && p !in Redo(Committed(s'.log)) ==> Current(left, p, Base(s')[p])
  {
    hide Fold, Redo, Committed;
    var s' := Do(s, Crash(survivor, left, length));
    CrashLog(s, survivor, left, length);
    assert PageSafe(s, p);
    if p in Base(s') && p !in Redo(Committed(s'.log)) {
      match survivor {
        case Prefix(k) =>
          assert s'.history[..s.from] == s.history[..s.from];
          CommittedPrefix(s.log[..k], s.synced);
          assert s.log[..k][..s.synced] == s.log[..s.synced];
          if Protected(s, p) {
            RedoGrows(Committed(s.log[..s.synced]), Committed(s.log[..k]), p);
          }
        case Old =>
          var before := s.stale.value;
          assert s'.history[..before.from] == s.history[..before.from];
          assert s.history[..s.from] == s.history[..before.from] + s.history[before.from..s.from];
          FoldJoin(s.init, s.history[..before.from], s.history[before.from..s.from]);
          FoldAt(Base(s'), Committed(before.log), p);
          NothingSynced(s, p);
      }
      assert SurvivingPage(s, p, left[p]);
    }
  }

  lemma NothingSynced(s: Machine, p: PageId)
    requires s.synced == 0
    ensures !Protected(s, p)
  {
  }

  lemma StepCrash(s: Machine, survivor: Survivor, left: Images, length: nat)
    requires Inv(s) && Enabled(s, Crash(survivor, left, length))
    ensures Inv(Do(s, Crash(survivor, left, length)))
  {
    hide Fold, Committed, WellFormed;
    var s' := Do(s, Crash(survivor, left, length));
    CrashLog(s, survivor, left, length);
    assert s'.log[..s'.synced] == s'.log;
    forall p ensures PageSafe(s', p) && (p in Base(s') && p !in Redo(Committed(s'.log)) ==> Current(left, p, Base(s')[p])) {
      CrashPage(s, survivor, left, length, p);
    }
    assert Committed(s'.log)[..0] == [];
    assert forall p :: p !in Redo([]) by { NothingToRedo(); }
    Whole(Do(s, Crash(survivor, left, length)));
  }

  lemma NothingToRedo()
    ensures forall p :: p !in Redo([])
  {
  }

  /** The pages of a transaction are among those redone. */
  lemma {:induction false} RedoHas(txns: seq<Images>, r: nat, p: PageId)
    requires r < |txns| && p in txns[r]
    ensures p in Redo(txns)
  {
    var n := |txns| - 1;
    if r < n {
      RedoHas(txns[..n], r, p);
    }
  }

  lemma StepReadLog(s: Machine)
    requires Inv(s) && Enabled(s, ReadLog)
    ensures Inv(Do(s, ReadLog))
  {
    hide DiskOk, Fold, Committed, WellFormed, Redo, NextAfter;
    DiskFrame(s, Do(s, ReadLog));
    Whole(Do(s, ReadLog));
  }

  /** Transaction numbers are not used again after recovery. */
  lemma {:induction false} NextAfterAll(log: seq<Frame>, least: nat, t: nat)
    ensures NextAfter(log, least) >= least
    ensures t in CommitIds(log) ==> t < NextAfter(log, least)
  {
    if log != [] {
      NextAfterAll(log[..|log| - 1], least, t);
    }
  }

  lemma StepRedoPage(s: Machine, p: PageId)
    requires Inv(s) && Enabled(s, RedoPage(p))
    ensures Inv(Do(s, RedoPage(p)))
  {
    hide PageSafe, Fold, Committed, Redo, LogOk, NumbersOk, StaleOk;
    LogIsWellFormed(s);
    TwoPassesAgree(s.log);
    RedoHas(Committed(s.log), s.phase.redone, p);
    BooksFrame(s, Do(s, RedoPage(p)));
    SafeFrame(s, Do(s, RedoPage(p)));
    Whole(Do(s, RedoPage(p)));
  }

  lemma LogIsWellFormed(s: Machine)
    requires LogOk(s)
    ensures WellFormed(s.log)
  {
  }

  /** What of the pool was redone stays so when the next transaction is begun. */
  lemma RedoneView(view: Images, txns: seq<Images>, r: nat)
    requires r < |txns| && forall p :: p in txns[r] ==> Current(view, p, txns[r][p])
    requires forall p :: p in Redo(txns[..r]) ==> p in view && (view[p] == Redo(txns[..r])[p] || p in txns[r])
    ensures forall p :: p in Redo(txns[..r + 1]) ==> p in view && view[p] == Redo(txns[..r + 1])[p]
  {
    hide Fold;
    assert txns[..r + 1] == txns[..r] + [txns[r]];
    FoldStep(map[], txns[..r], txns[r]);
  }

  lemma StepRedoDone(s: Machine)
    requires Inv(s) && Enabled(s, RedoDone)
    ensures Inv(Do(s, RedoDone))
  {
    hide DiskOk, Committed, WellFormed, Fold, Redo;
    assert WellFormed(s.log);
    TwoPassesAgree(s.log);
    RedoneView(s.view, Committed(s.log), s.phase.redone);
    DiskFrame(s, Do(s, RedoDone));
    Whole(Do(s, RedoDone));
  }

  /** The transactions reported committed. */
  function Acked(s: Machine): seq<Images>
    requires s.acked <= |s.history|
  {
    s.history[..s.acked]
  }

  lemma StepKeeps(s: Machine, e: Event)
    requires Inv(s) && Enabled(s, e) && Disciplined(s, e)
    ensures Inv(Do(s, e))
    ensures Acked(s) <= Acked(Do(s, e)) && Do(s, e).init == s.init
  {
    hide PageSafe, Fold, Committed, WellFormed, StaleOk, NumbersOk, DiskOk, ViewOk;
    match e {
      case Begin => StepBegin(s);
      case Log(p, image) => StepLog(s, p, image);
      case Modify(p, image) => StepModify(s, p, image);
      case Extend => StepExtend(s);
      case CommitFrame => StepCommitFrame(s);
      case CommitSync => StepCommitSync(s);
      case CommitApply(p) => StepCommitApply(s, p);
      case CommitDone => StepCommitDone(s);
      case Abort => StepAbort(s);
      case Writeback(p) => StepWriteback(s, p);
      case Sync => StepSync(s);
      case Truncate => StepTruncate(s);
      case Crash(survivor, left, length) =>
        CrashLog(s, survivor, left, length);
        StepCrash(s, survivor, left, length);
      case ReadLog => StepReadLog(s);
      case RedoPage(p) => StepRedoPage(s, p);
      case RedoDone => StepRedoDone(s);
    }
  }

  // ------------------------------------------------------------ whole runs

  /** The events can happen one after the other, and the clients keep to the rules. */
  ghost predicate Allowed(s: Machine, events: seq<Event>)
    decreases |events|
  {
    events == [] || (Enabled(s, events[0]) && Disciplined(s, events[0]) && Allowed(Do(s, events[0]), events[1..]))
  }

  ghost function Run(s: Machine, events: seq<Event>): Machine
    requires Allowed(s, events)
    decreases |events|
  {
    if events == [] then s else Run(Do(s, events[0]), events[1..])
  }

  /** A database just opened: its file is on the disk, its log is empty. */
  ghost predicate Fresh(s: Machine) {
    && FileOf(s.init, s.length) && s.durable == s.file == s.view == s.init && s.durableLength == s.length && s.unsynced == {}
    && s.log == [] && s.synced == 0 && s.stale.None? && s.active == map[] && s.txn.None? && s.phase.Running?
    && s.history == [] && s.acked == 0 && s.from == 0
  }

  lemma FreshIsFine(s: Machine)
    requires Fresh(s)
    ensures Inv(s)
  {
  }

  /** Along every run the invariant holds, and no transaction reported committed is forgotten. */
  lemma {:induction false} RunKeeps(s: Machine, events: seq<Event>)
    requires Inv(s) && Allowed(s, events)
    ensures Inv(Run(s, events)) && Acked(s) <= Acked(Run(s, events)) && Run(s, events).init == s.init
    decreases |events|
  {
    hide Enabled, Disciplined, LogOk, NumbersOk, StaleOk, DiskOk, ViewOk, Do;
    if events != [] {
      StepKeeps(s, events[0]);
      RunKeeps(Do(s, events[0]), events[1..]);
    }
  }

  // ------------------------------------------------------------ crash safety

  /** The pages after redoing what recovery finds in the log. */
  function RecoveredPages(s: Machine): Images { Fold(s.view, Replayed(s.log)) }

  /** Recovery finds every page it has an image for; otherwise the fetch of the first such page fails. */
  predicate RecoveryCompletes(s: Machine) {
    forall p :: p in Redo(Replayed(s.log)) ==> p in s.view
  }

  /** Whatever a crash leaves of the log and of the file, redoing the log gives the pages of the committed
      transactions, in order: all those reported committed, and possibly the one whose commit frame was
      written but not yet synced. */
  lemma CrashSafety(s: Machine, e: Event)
    requires Inv(s) && e.Crash? && Enabled(s, e)
    ensures var s' := Do(s, e);
      && Acked(s) <= s'.history <= s.history && |s.history| <= s.acked + 1
      && forall p :: p in CommittedPages(s') ==> Current(RecoveredPages(s'), p, CommittedPages(s')[p])
  {
    hide Fold, Committed, Redo;
    var s' := Do(s, e);
    CrashLog(s, e.survivor, e.left, e.length);
    TwoPassesAgree(s'.log);
    forall p | p in CommittedPages(s') ensures Current(RecoveredPages(s'), p, CommittedPages(s')[p]) {
      CrashPage(s, e.survivor, e.left, e.length, p);
      CommittedAt(s', p);
      FoldAt(s'.view, Replayed(s'.log), p);
    }
  }

  /** From the first state of a database on: crash at any time, in any way. */
  lemma EveryRunIsCrashSafe(s: Machine, events: seq<Event>, e: Event)
    requires Fresh(s) && Allowed(s, events) && e.Crash? && Enabled(Run(s, events), e)
    ensures var s1, s2 := Run(s, events), Do(Run(s, events), e);
      && s1.acked <= |s1.history| <= s1.acked + 1 && Acked(s1) <= s2.history <= s1.history
      && forall p :: p in Fold(s.init, s2.history) ==> Current(RecoveredPages(s2), p, Fold(s.init, s2.history)[p])
  {
    hide Inv, Enabled, Fold, Do, Committed;
    FreshIsFine(s);
    RunKeeps(s, events);
    AckedWithin(Run(s, events));
    CrashSafety(Run(s, events), e);
    CrashKeepsInit(Run(s, events), e);
    var s2 := Do(Run(s, events), e);
    assert CommittedPages(s2) == Fold(s.init, s2.history);
  }

  lemma AckedWithin(s: Machine)
    requires Inv(s)
    ensures s.acked <= |s.history| <= s.acked + 1
  {
    hide WellFormed, Committed, StaleOk, NumbersOk, DiskOk, ViewOk;
  }

  lemma CrashKeepsInit(s: Machine, e: Event)
    requires e.Crash? && Enabled(s, e)
    ensures Do(s, e).init == s.init
  {
  }

  /** A crash while no commit is in doubt, in the middle of a recovery in particular, loses nothing: the
      committed transactions stay the same, so recovering again ends with the same pages. */
  lemma RecoveringAgainChangesNothing(s: Machine, e: Event)
    requires Inv(s) && !s.phase.InDoubt? && e.Crash? && Enabled(s, e)
    ensures Do(s, e).history == s.history && CommittedPages(Do(s, e)) == CommittedPages(s)
  {
    hide Fold, Committed, Redo, PageSafe;
    CrashLog(s, e.survivor, e.left, e.length);
  }

  /** Redoing the log twice is redoing it once. */
  lemma RedoTwice(base: Images, txns: seq<Images>, p: PageId)
    ensures p in Fold(Fold(base, txns), txns) <==> p in Fold(base, txns)
    ensures p in Fold(base, txns) ==> Fold(Fold(base, txns), txns)[p] == Fold(base, txns)[p]
  {
    FoldAt(base, txns, p);
    FoldAt(Fold(base, txns), txns, p);
  }

  /** Recovery ends with the pool and, after the checkpoint that closes it, the disk holding exactly the
      committed contents. */
  lemma RecoveryEnds(s: Machine)
    requires Inv(s) && s.phase.Recovering? && Enabled(s, Truncate)
    ensures var s' := Do(s, Truncate);
      forall p :: p in CommittedPages(s) ==>
        Current(s'.durable, p, CommittedPages(s)[p]) && Current(s'.view, p, CommittedPages(s)[p])
  {
    hide Fold, Committed, Redo, PageSafe;
    RedoneIsClean(s);
  }

  /** Recovery completes after every crash that leaves this log, if and only if every page the log has a
      committed image of lies within the synced length of the file.  The log is synced at each commit,
      the file's length only at checkpoints. */
  lemma RecoveryCompletesIff(s: Machine, survivor: Survivor)
    requires Inv(s) && Enabled(s, Crash(survivor, s.durable, s.durableLength))
    ensures (forall left, length {:trigger SurvivingFile(s, left, length)} :: SurvivingFile(s, left, length) ==>
               RecoveryCompletes(Do(s, Crash(survivor, left, length))))
            <==> forall p :: p in Redo(Replayed(SurvivingLog(s, survivor))) ==> 0 <= p < s.durableLength
  {
    hide Fold, Committed, Redo, PageSafe, Replayed, LogOk, StaleOk, NumbersOk, ViewOk;
    assert SurvivingFile(s, s.durable, s.durableLength);
    assert Do(s, Crash(survivor, s.durable, s.durableLength)).view == s.durable;
    if forall p :: p in Redo(Replayed(SurvivingLog(s, survivor))) ==> 0 <= p < s.durableLength {
      forall left, length | SurvivingFile(s, left, length) ensures RecoveryCompletes(Do(s, Crash(survivor, left, length))) {
        assert FileOf(left, length);
      }
    }
  }

  // ------------------------------------------------------------ what the rules are for

  /** Any wrong page a crash could bring back. */
  ghost predicate MayRecoverWrongly(s: Machine, p: PageId) {
    exists left, length {:trigger SurvivingFile(s, left, length)} ::
      var e := Crash(Prefix(s.synced), left, length);
      && SurvivingFile(s, left, length) && Enabled(s, e)
      && var s' := Do(s, e);
      && p in CommittedPages(s') && !Current(RecoveredPages(s'), p, CommittedPages(s')[p])
  }

  /** A page may be written back before its transaction commits exactly when the write-back is harmless:
      otherwise some crash brings the uncommitted contents back for good. */
  lemma WritebackIsSafeIff(s: Machine, p: PageId)
    requires Inv(s) && p in s.view
    ensures MayRecoverWrongly(Do(s, Writeback(p)), p) <==> !Harmless(s, p)
  {
    hide Fold, Committed, Redo, PageSafe, StaleOk, NumbersOk, ViewOk;
    var s1 := Do(s, Writeback(p));
    if Harmless(s, p) {
      StepKeeps(s, Writeback(p));
      forall left, length | SurvivingFile(s1, left, length) && Enabled(s1, Crash(Prefix(s1.synced), left, length))
        ensures var s' := Do(s1, Crash(Prefix(s1.synced), left, length));
          p in CommittedPages(s') ==> Current(RecoveredPages(s'), p, CommittedPages(s')[p])
      {
        CrashSafety(s1, Crash(Prefix(s1.synced), left, length));
      }
    } else {
      StealBreaks(s, p);
    }
  }

  /** The written-back contents may be what the crash leaves. */
  lemma StolenPageSurvives(s: Machine, p: PageId)
    requires Inv(s) && p in s.view && p in s.durable
    ensures var s1, left := Do(s, Writeback(p)), s.durable[p := s.view[p]];
      SurvivingFile(s1, left, s.durableLength) && Enabled(s1, Crash(Prefix(s.synced), left, s.durableLength))
      && Enabled(s, Crash(Prefix(s.synced), s.durable, s.durableLength))
  {
    hide Fold, Redo, PageSafe, StaleOk, NumbersOk, ViewOk;
    var s1, left := Do(s, Writeback(p)), s.durable[p := s.view[p]];
    CommittedPrefix(s.log, s.synced);
    assert SurvivingPage(s1, p, s.view[p]);
    forall q | q in left ensures SurvivingPage(s1, q, left[q]) {
    }
    forall q | q in s.durable ensures SurvivingPage(s, q, s.durable[q]) {
    }
  }

  lemma StealBreaks(s: Machine, p: PageId)
    requires Inv(s) && p in s.view && !Harmless(s, p)
    ensures MayRecoverWrongly(Do(s, Writeback(p)), p)
  {
    hide Fold, Committed, Redo, StaleOk, NumbersOk, ViewOk, SurvivingFile;
    assert PageSafe(s, p);
    StolenPageSurvives(s, p);
    var s1, left := Do(s, Writeback(p)), s.durable[p := s.view[p]];
    CrashLog(s, Prefix(s.synced), s.durable, s.durableLength);
    var s0 := Do(s, Crash(Prefix(s.synced), s.durable, s.durableLength));
    var s' := Do(s1, Crash(Prefix(s.synced), left, s.durableLength));
    assert s'.history == s0.history && s'.log == s0.log && s'.from == s0.from;
    assert s'.history[..s.from] == s.history[..s.from];
    CommittedAt(s0, p);
    TwoPassesAgree(s'.log);
    FoldAt(s'.view, Replayed(s'.log), p);
  }

  /** A transaction that is reported committed and has an image of a page beyond the synced length of the
      file: if the crash loses the extension, recovery fails. */
  lemma LostExtension(s: Machine, p: PageId)
    requires Inv(s) && s.phase.Committing? && p in s.active && s.durableLength <= p
    ensures var e := Crash(Prefix(|s.log|), s.durable, s.durableLength);
      Enabled(s, e) && Do(s, e).history == s.history && !RecoveryCompletes(Do(s, e))
  {
    hide Fold, Redo, PageSafe, ViewOk, StaleOk;
    var e := Crash(Prefix(|s.log|), s.durable, s.durableLength);
    assert s.log[..|s.log|] == s.log;
    assert SurvivingFile(s, s.durable, s.durableLength);
    var s' := Do(s, e);
    assert s'.history == s.history;
    TwoPassesAgree(s.log);
    var txns := Committed(s.log);
    assert txns[|txns| - 1] == s.active;
    RedoHas(txns, |txns| - 1, p);
  }

  /** In a clean pool every page may be written back. */
  lemma CleanIsHarmless(s: Machine, p: PageId)
    requires Inv(s) && !s.phase.InDoubt? && Clean(s) && p in s.view
    ensures s.synced <= |s.log| && s.from <= |s.history| && Harmless(s, p)
  {
    hide Fold, Redo, Committed, PageSafe, ViewOk, StaleOk, NumbersOk;
    CommittedAt(s, p);
  }

  // ------------------------------------------------------------ leaving a transaction without committing it

  /** The events can happen one after the other, whether or not the clients keep to the rules. */
  ghost predicate Possible(s: Machine, events: seq<Event>)
    decreases |events|
  {
    events == [] || (Enabled(s, events[0]) && Possible(Do(s, events[0]), events[1..]))
  }

  ghost function Play(s: Machine, events: seq<Event>): Machine
    requires Possible(s, events)
    decreases |events|
  {
    if events == [] then s else Play(Do(s, events[0]), events[1..])
  }

  lemma {:induction false} PlayJoin(s: Machine, a: seq<Event>, b: seq<Event>)
    requires Possible(s, a) && Possible(Play(s, a), b)
    ensures Possible(s, a + b) && Play(s, a + b) == Play(Play(s, a), b)
    decreases |a|
  {
    hide Enabled, Do;
    if a == [] {
      assert a + b == b;
    } else {
      assert (a + b)[0] == a[0] && (a + b)[1..] == a[1..] + b;
      PlayJoin(Do(s, a[0]), a[1..], b);
    }
  }

  /** Evictions and checkpoints. */
  predicate Flushes(events: seq<Event>) {
    forall i :: 0 <= i < |events| ==> events[i].Writeback? || events[i].Sync? || events[i].Truncate?
  }

  lemma {:induction false} CleanFlushIsSafe(s: Machine, events: seq<Event>, p: PageId)
    requires Inv(s) && s.phase.Running? && Clean(s) && s.active == map[] && Flushes(events) && Possible(s, events)
    ensures !MayRecoverWrongly(Play(s, events), p)
    decreases |events|
  {
    hide Fold, Committed, LogOk, NumbersOk, StaleOk, DiskOk;
    if events == [] {
      forall left, length | SurvivingFile(s, left, length) && Enabled(s, Crash(Prefix(s.synced), left, length))
        ensures var s' := Do(s, Crash(Prefix(s.synced), left, length));
          p in CommittedPages(s') ==> Current(RecoveredPages(s'), p, CommittedPages(s')[p])
      {
        CrashSafety(s, Crash(Prefix(s.synced), left, length));
      }
    } else {
      var e := events[0];
      if e.Writeback? {
        CleanIsHarmless(s, e.p);
      }
      StepKeeps(s, e);
      assert CommittedPages(Do(s, e)) == CommittedPages(s);
      assert forall i :: 0 <= i < |events[1..]| ==> events[1..][i] == events[i + 1];
      CleanFlushIsSafe(Do(s, e), events[1..], p);
    }
  }

  lemma {:induction false} WriteBackFrom(s: Machine, k: nat) returns (events: seq<Event>)
    requires FileOf(s.view, s.length) && FileOf(s.file, s.length) && k <= s.length
    ensures Flushes(events) && Possible(s, events)
    ensures var s' := Play(s, events);
      && s' == s.(file := s'.file, unsynced := s'.unsynced) && s'.file.Keys == s.file.Keys
      && forall p :: p in s.file ==> s'.file[p] == if k <= p then s.view[p] else s.file[p]
    decreases s.length - k
  {
    events := [];
    if k < s.length {
      var s1 := Do(s, Writeback(k));
      assert s1.file.Keys == s.file.Keys;
      var rest := WriteBackFrom(s1, k + 1);
      events := [Writeback(k)] + rest;
      assert events[1..] == rest;
    }
  }

  lemma PlaysOn(s: Machine, e: Event, rest: seq<Event>)
    requires Enabled(s, e) && Possible(Do(s, e), rest)
    ensures Possible(s, [e] + rest) && Play(s, [e] + rest) == Play(Do(s, e), rest)
  {
    hide Enabled, Do;
    assert ([e] + rest)[1..] == rest;
  }

  /** A checkpoint that makes a wrong page durable leaves nothing to correct it. */
  lemma WrongForGood(s: Machine, p: PageId)
    requires s.phase.Running? && Enabled(s, Truncate) && FileOf(s.durable, s.durableLength)
    requires p in CommittedPages(s) && p in s.view && s.view[p] != CommittedPages(s)[p]
    ensures MayRecoverWrongly(Do(s, Truncate), p)
  {
    hide Fold;
    var s1 := Do(s, Truncate);
    forall q | q in s1.durable ensures SurvivingPage(s1, q, s1.durable[q]) {
    }
    var e := Crash(Prefix(s1.synced), s1.durable, s1.durableLength);
    assert SurvivingFile(s1, s1.durable, s1.durableLength) && Enabled(s1, e);
    var s' := Do(s1, e);
    assert s'.history == s.history && s'.log == [];
    assert RecoveredPages(s') == s1.durable by { FoldNothing(s'.view); }
  }

  /** With a change in the pool that nobody will log any more, an ordinary checkpoint makes it permanent. */
  lemma UncleanCheckpoint(s: Machine, p: PageId) returns (events: seq<Event>)
    requires s.phase.Running? && s.active == map[] && FileOf(s.view, s.length) && FileOf(s.file, s.length)
    requires p in CommittedPages(s) && p in s.view && s.view[p] != CommittedPages(s)[p]
    ensures Flushes(events) && Possible(s, events) && MayRecoverWrongly(Play(s, events), p)
  {
    hide Fold, MayRecoverWrongly;
    var writebacks := WriteBackFrom(s, 0);
    var s1 := Play(s, writebacks);
    var s2 := Do(s1, Sync);
    assert s2.view == s.view && s2.history == s.history && s2.init == s.init;
    assert forall q :: q in s2.view ==> Current(s2.durable, q, s2.view[q]);
    WrongForGood(s2, p);
    hide Do, Enabled, FileOf;
    PlaysOn(s2, Truncate, []);
    PlaysOn(s1, Sync, [Truncate]);
    assert [Truncate] + [] == [Truncate];
    PlayJoin(s, writebacks, [Sync] + [Truncate]);
    events := writebacks + ([Sync] + [Truncate]);
  }

  /** A transaction may be left without committing it, by abort or by beginning the next one, exactly when it
      has left no change in the pool: otherwise evictions and a checkpoint write the change to the disk, and
      no log is left to correct it. */
  lemma LeavingIsSafeIff(s: Machine, e: Event)
    requires Inv(s) && (e.Abort? || e.Begin?) && Enabled(s, e) && s.txn.Some?
    ensures (forall events, p {:trigger MayRecoverWrongly(Play(Do(s, e), events), p)} ::
               Flushes(events) && Possible(Do(s, e), events) ==> !MayRecoverWrongly(Play(Do(s, e), events), p))
            <==> Clean(s)
    ensures e.Abort? ==> (Inv(Do(s, e)) <==> Clean(s))
  {
    hide Fold, MayRecoverWrongly, PageSafe, Possible, Play, StaleOk;
    var s1 := Do(s, e);
    assert CommittedPages(s1) == CommittedPages(s);
    if Clean(s) {
      StepKeeps(s, e);
      forall events, p | Flushes(events) && Possible(s1, events) ensures !MayRecoverWrongly(Play(s1, events), p) {
        CleanFlushIsSafe(s1, events, p);
      }
    } else {
      var p :| p in CommittedPages(s) && !Current(s.view, p, CommittedPages(s)[p]);
      var events := UncleanCheckpoint(s1, p);
    }
  }

  // ------------------------------------------------------------ committing what was not logged

  ghost predicate ActiveInPool(s: Machine) { forall p :: p in s.active ==> p in s.view }

  /** The pool with the images of the transaction over what it held. */
  ghost predicate CopiedBack(s: Machine, pool: Images) {
    pool.Keys == s.view.Keys && forall p :: p in pool ==> pool[p] == if p in s.active then s.active[p] else s.view[p]
  }

  lemma CommitSteps(s: Machine)
    requires s.phase.Running? && s.txn.Some?
    ensures Enabled(s, CommitFrame) && (AllLogged(s) ==> Disciplined(s, CommitFrame))
    ensures var s1 := Do(s, CommitFrame);
      && Enabled(s1, CommitSync) && Disciplined(s1, CommitSync)
      && var s2 := Do(s1, CommitSync);
      && s2.phase.Committing? && s1.active == s2.active == s.active && s1.view == s2.view == s.view && s1.file == s2.file == s.file
      && s1.nextTxn == s2.nextTxn == s.nextTxn && s1.log == s2.log == s.log + [Frame.Commit(s.txn.value)]
  {
    hide AllLogged;
  }

  /** Commit frame, sync, copy-back. */
  ghost function AfterCommit(s: Machine, pool: Images): (s': Machine)
    requires s.phase.Running? && s.txn.Some? && ActiveInPool(s) && CopiedBack(s, pool)
  {
    CommitSteps(s);
    Do(Do(Do(s, CommitFrame), CommitSync).(view := pool), CommitDone)
  }

  lemma CopyBackKeeps(s: Machine, pool: Images)
    requires Inv(s) && s.phase.Committing? && CopiedBack(s, pool)
    ensures Inv(s.(view := pool))
  {
    hide PageSafe, Fold, Committed, WellFormed, LogOk, NumbersOk, StaleOk;
    var s' := s.(view := pool);
    BooksFrame(s, s');
    assert CommittedPages(s') == CommittedPages(s);
    SafeFrame(s, s');
    Whole(s');
  }

  lemma LoggedCommit(s: Machine, pool: Images)
    requires Inv(s) && s.phase.Running? && s.txn.Some? && AllLogged(s) && CopiedBack(s, pool)
    ensures ActiveInPool(s)
    ensures var s' := AfterCommit(s, pool); Inv(s') && s'.phase.Running? && Clean(s') && s'.active == map[]
  {
    hide Fold, LogOk, StaleOk, DiskOk, Committed, AllLogged;
    CommitSteps(s);
    var s1, s2 := Do(s, CommitFrame), Do(Do(s, CommitFrame), CommitSync);
    StepKeeps(s, CommitFrame);
    StepKeeps(s1, CommitSync);
    CopyBackKeeps(s2, pool);
    StepKeeps(s2.(view := pool), CommitDone);
  }

  lemma UnloggedCommit(s: Machine, pool: Images) returns (p: PageId)
    requires Inv(s) && s.phase.Running? && s.txn.Some? && !AllLogged(s) && CopiedBack(s, pool)
    ensures ActiveInPool(s)
    ensures var s' := AfterCommit(s, pool);
      && s'.phase.Running? && s'.txn.None? && s'.active == map[] && FileOf(s'.view, s'.length) && FileOf(s'.file, s'.length)
      && s'.from <= |s'.history|
      && p in CommittedPages(s') && p in s'.view && s'.view[p] != CommittedPages(s')[p]
  {
    hide Fold, Committed, PageSafe, StaleOk;
    CommitSteps(s);
    p :| p in CommittedPages(s) && p !in s.active && !Current(s.view, p, CommittedPages(s)[p]);
    FoldStep(s.init, s.history, s.active);
  }

  /** A transaction may be committed exactly when every page it changed in the pool has been logged: otherwise
      evictions and a checkpoint make the change that was not logged permanent. */
  lemma CommitIsSafeIff(s: Machine, pool: Images)
    requires Inv(s) && s.phase.Running? && s.txn.Some? && CopiedBack(s, pool)
    ensures ActiveInPool(s)
    ensures (forall events, p {:trigger MayRecoverWrongly(Play(AfterCommit(s, pool), events), p)} ::
               Flushes(events) && Possible(AfterCommit(s, pool), events) ==> !MayRecoverWrongly(Play(AfterCommit(s, pool), events), p))
            <==> AllLogged(s)
    ensures Inv(AfterCommit(s, pool)) <==> AllLogged(s)
  {
    hide Fold, MayRecoverWrongly, Possible, Play, StaleOk, LogOk, NumbersOk, DiskOk, Committed, AfterCommit, AllLogged;
    if AllLogged(s) {
      LoggedCommit(s, pool);
      forall events, p | Flushes(events) && Possible(AfterCommit(s, pool), events) ensures !MayRecoverWrongly(Play(AfterCommit(s, pool), events), p) {
        CleanFlushIsSafe(AfterCommit(s, pool), events, p);
      }
    } else {
      var q := UnloggedCommit(s, pool);
      var events := UncleanCheckpoint(AfterCommit(s, pool), q);
    }
  }

  // ------------------------------------------------------------ runs that reach the failures

  /** A transaction that changed a page and is then left: its change reaches the disk for good. */
  lemma AbortedChangeStays(s: Machine, p: PageId, image: Page) returns (events: seq<Event>)
    requires Fresh(s) && p in s.init && image != s.init[p]
    ensures Possible(s, [Begin, Modify(p, image), Abort] + events) && Flushes(events)
    ensures MayRecoverWrongly(Play(s, [Begin, Modify(p, image), Abort] + events), p)
  {
    hide MayRecoverWrongly;
    FreshIsFine(s);
    var began := [Begin, Modify(p, image), Abort];
    var s1, s2 := Do(s, Begin), Do(Do(s, Begin), Modify(p, image));
    assert began[1..][0] == Modify(p, image) && began[1..][1..] == [Abort] && [Abort][1..] == [];
    assert Possible(s2, [Abort]) && Possible(s1, began[1..]) && Possible(s, began);
    assert Play(s2, [Abort]) == Do(s2, Abort) && Play(s1, began[1..]) == Do(s2, Abort) && Play(s, began) == Do(s2, Abort);
    var s3 := Do(s2, Abort);
    assert CommittedPages(s3) == s.init;
    events := UncleanCheckpoint(s3, p);
    PlayJoin(s, began, events);
  }

  /** The same change, evicted before the commit: a crash may bring it back for good. */
  lemma StolenPageComesBack(s: Machine, p: PageId, image: Page)
    requires Fresh(s) && p in s.init && image != s.init[p]
    ensures Allowed(s, [Begin, Modify(p, image)])
    ensures var s1 := Run(s, [Begin, Modify(p, image)]);
      Enabled(s1, Writeback(p)) && MayRecoverWrongly(Do(s1, Writeback(p)), p)
  {
    var events := [Begin, Modify(p, image)];
    FreshIsFine(s);
    var s1, s2 := Modified(s, p, image);
    hide Do, Enabled, Disciplined, Fresh, Inv, MayRecoverWrongly;
    RunsOn(s1, Modify(p, image), []);
    RunsOn(s, Begin, [Modify(p, image)] + []);
    assert events == [Begin] + ([Modify(p, image)] + []);
    RunKeeps(s, events);
    NotHarmless(s2, p);
    WritebackIsSafeIff(s2, p);
  }

  /** With an empty log nothing protects a changed page. */
  lemma NotHarmless(s: Machine, p: PageId)
    requires s.log == [] && s.synced == 0 && s.from == 0 && p in s.view && p in s.init && s.view[p] != s.init[p]
    ensures !Harmless(s, p)
  {
    assert s.log[..0] == [] && s.history[..0] == [];
  }

  lemma Modified(s: Machine, p: PageId, image: Page) returns (s1: Machine, s2: Machine)
    requires Fresh(s) && p in s.init && image != s.init[p]
    ensures Enabled(s, Begin) && Disciplined(s, Begin) && s1 == Do(s, Begin)
    ensures Enabled(s1, Modify(p, image)) && Disciplined(s1, Modify(p, image)) && s2 == Do(s1, Modify(p, image))
    ensures Enabled(s2, Writeback(p)) && s2.log == [] && s2.synced == 0 && s2.from == 0
    ensures p in s2.view && s2.view[p] == image && s2.init == s.init
  {
    s1 := Do(s, Begin);
    s2 := Do(s1, Modify(p, image));
  }

  /** A transaction that writes a page new in the file, up to the sync that makes it committed. */
  function Extending(p: PageId, image: Page): seq<Event> {
    [Begin, Extend, Modify(p, image), Log(p, image), CommitFrame, CommitSync]
  }

  /** On every fresh database: the commit is reported, the crash loses the extension of the file, and the
      recovery that follows fails. */
  lemma ExtensionIsLost(s: Machine, image: Page)
    requires Fresh(s)
    ensures var events := Extending(s.length, image);
      && Allowed(s, events)
      && var s1 := Run(s, events);
      && var e := Crash(Prefix(|s1.log|), s1.durable, s1.durableLength);
      && s1.acked == 1 && Enabled(s1, e) && Do(s1, e).history == s1.history && !RecoveryCompletes(Do(s1, e))
  {
    FreshIsFine(s);
    ExtendingRuns(s, image);
    RunKeeps(s, Extending(s.length, image));
    LostExtension(Run(s, Extending(s.length, image)), s.length);
  }

  /** The states of that run up to the commit frame. */
  lemma ExtendingStates(s: Machine, image: Page) returns (s1: Machine, s2: Machine, s3: Machine, s4: Machine)
    requires Fresh(s)
    ensures Enabled(s, Begin) && Disciplined(s, Begin) && s1 == Do(s, Begin)
    ensures Enabled(s1, Extend) && s2 == Do(s1, Extend)
    ensures Enabled(s2, Modify(s.length, image)) && s3 == Do(s2, Modify(s.length, image))
    ensures Enabled(s3, Log(s.length, image)) && s4 == Do(s3, Log(s.length, image))
    ensures Enabled(s4, CommitFrame) && Disciplined(s4, CommitFrame)
    ensures s4.active == map[s.length := image] && s4.durableLength == s.length && s4.history == []
  {
    s1 := Do(s, Begin);
    s2 := Do(s1, Extend);
    s3 := Do(s2, Modify(s.length, image));
    s4 := Do(s3, Log(s.length, image));
    assert CommittedPages(s4) == s.init;
  }

  lemma ExtendingRuns(s: Machine, image: Page)
    requires Fresh(s)
    ensures Allowed(s, Extending(s.length, image))
    ensures var s1 := Run(s, Extending(s.length, image));
      s1.phase.Committing? && s.length in s1.active && s1.durableLength == s.length && s1.acked == 1
  {
    var p := s.length;
    var s1, s2, s3, s4 := ExtendingStates(s, image);
    var s5 := Do(s4, CommitFrame);
    var s6 := Do(s5, CommitSync);
    assert s6.phase.Committing? && s6.active == s4.active && s6.durableLength == p && s6.acked == 1;
    hide Do, Enabled, Fresh, AllLogged;
    RunsOn(s5, CommitSync, []);
    RunsOn(s4, CommitFrame, [CommitSync] + []);
    RunsOn(s3, Log(p, image), [CommitFrame] + ([CommitSync] + []));
    RunsOn(s2, Modify(p, image), [Log(p, image)] + ([CommitFrame] + ([CommitSync] + [])));
    RunsOn(s1, Extend, [Modify(p, image)] + ([Log(p, image)] + ([CommitFrame] + ([CommitSync] + []))));
    RunsOn(s, Begin, [Extend] + ([Modify(p, image)] + ([Log(p, image)] + ([CommitFrame] + ([CommitSync] + [])))));
    assert Extending(p, image) == [Begin] + ([Extend] + ([Modify(p, image)] + ([Log(p, image)] + ([CommitFrame] + ([CommitSync] + [])))));
  }

  lemma RunsOn(s: Machine, e: Event, rest: seq<Event>)
    requires Enabled(s, e) && Disciplined(s, e) && Allowed(Do(s, e), rest)
    ensures Allowed(s, [e] + rest) && Run(s, [e] + rest) == Run(Do(s, e), rest)
  {
    hide Enabled, Disciplined, Do;
    assert ([e] + rest)[1..] == rest;
  }
}
