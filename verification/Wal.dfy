/** The redo log: its frames and what recovery reads out of them (src/wal/wal_manager.h,
    src/wal/wal_manager.cpp:30-118). */
module RedoLog {
  import opened Pages

  datatype Frame =
    | PageWrite(txn: nat, id: PageId, image: Page)
    | Commit(txn: nat)

  type Images = map<PageId, Page>

  // ------------------------------------------------------------ committed transactions, in order

  /** The pages after the transactions, each one overwriting the pages it has images of. */
  function Fold(base: Images, txns: seq<Images>): Images {
    if txns == [] then base else Fold(base, txns[..|txns| - 1]) + txns[|txns| - 1]
  }

  function Redo(txns: seq<Images>): Images { Fold(map[], txns) }

  lemma {:induction false} FoldJoin(base: Images, a: seq<Images>, b: seq<Images>)
    ensures Fold(base, a + b) == Fold(Fold(base, a), b)
  {
    if b == [] {
      assert a + b == a;
    } else {
      var n := |b| - 1;
      assert (a + b)[..|a| + n] == a + b[..n];
      FoldJoin(base, a, b[..n]);
    }
  }

  /** Where the transactions have an image of a page, the base does not matter. */
  lemma {:induction false} FoldAt(base: Images, txns: seq<Images>, p: PageId)
    ensures p in Fold(base, txns) <==> p in base || p in Redo(txns)
    ensures p in Redo(txns) ==> Fold(base, txns)[p] == Redo(txns)[p]
    ensures p in base && p !in Redo(txns) ==> Fold(base, txns)[p] == base[p]
  {
    if txns != [] {
      FoldAt(base, txns[..|txns| - 1], p);
    }
  }

  lemma FoldNothing(base: Images)
    ensures Fold(base, []) == base
  {
  }

  lemma FoldStep(base: Images, txns: seq<Images>, t: Images)
    ensures Fold(base, txns + [t]) == Fold(base, txns) + t
  {
    assert (txns + [t])[..|txns|] == txns;
  }

  /** More transactions have images of more pages. */
  lemma RedoGrows(a: seq<Images>, b: seq<Images>, p: PageId)
    requires a <= b && p in Redo(a)
    ensures p in Redo(b)
  {
    assert b == a + b[|a|..];
    FoldJoin(map[], a, b[|a|..]);
    FoldAt(Redo(a), b[|a|..], p);
  }

  // ------------------------------------------------------------ reading the log

  /** The last image of each page among the frames of transaction t. */
  function ImagesOf(log: seq<Frame>, t: nat): Images {
    if log == [] then map[]
    else
      var n := |log| - 1;
      if log[n].PageWrite? && log[n].txn == t then ImagesOf(log[..n], t)[log[n].id := log[n].image]
      else ImagesOf(log[..n], t)
  }

  function CommitIds(log: seq<Frame>): seq<nat> {
    if log == [] then []
    else
      var n := |log| - 1;
      if log[n].Commit? then CommitIds(log[..n]) + [log[n].txn] else CommitIds(log[..n])
  }

  /** What each commit frame commits: the images its transaction had logged by then. */
  function Committed(log: seq<Frame>): seq<Images> {
    if log == [] then []
    else
      var n := |log| - 1;
      if log[n].Commit? then Committed(log[..n]) + [ImagesOf(log[..n], log[n].txn)] else Committed(log[..n])
  }

  /** What recovery replays: it first reads the whole log, then takes each committed transaction's images. */
  function Replayed(log: seq<Frame>): (txns: seq<Images>)
    ensures |txns| == |CommitIds(log)|
  {
    seq(|CommitIds(log)|, i requires 0 <= i < |CommitIds(log)| => ImagesOf(log, CommitIds(log)[i]))
  }

  /** No frame of a transaction follows its commit frame. */
  predicate WellFormed(log: seq<Frame>) {
    forall i, j :: 0 <= i < j < |log| && log[i].Commit? ==> log[j].txn != log[i].txn
  }

  lemma Append(log: seq<Frame>, f: Frame)
    ensures Committed(log + [f]) == if f.Commit? then Committed(log) + [ImagesOf(log, f.txn)] else Committed(log)
    ensures CommitIds(log + [f]) == if f.Commit? then CommitIds(log) + [f.txn] else CommitIds(log)
    ensures forall t :: ImagesOf(log + [f], t) ==
              if f.PageWrite? && f.txn == t then ImagesOf(log, t)[f.id := f.image] else ImagesOf(log, t)
  {
    assert (log + [f])[..|log|] == log;
  }

  /** A prefix of the log commits a prefix of the transactions. */
  lemma {:induction false} CommittedPrefix(log: seq<Frame>, k: nat)
    requires k <= |log|
    ensures Committed(log[..k]) <= Committed(log)
    ensures (forall i :: k <= i < |log| ==> !log[i].Commit?) ==> Committed(log[..k]) == Committed(log)
  {
    if k == |log| {
      assert log[..k] == log;
    } else {
      var n := |log| - 1;
      CommittedPrefix(log[..n], k);
      assert log[..n][..k] == log[..k];
    }
  }

  lemma {:induction false} ImagesGrowOnly(log: seq<Frame>, k: nat, t: nat)
    requires k <= |log| && forall i :: k <= i < |log| && log[i].PageWrite? ==> log[i].txn != t
    ensures ImagesOf(log, t) == ImagesOf(log[..k], t)
  {
    if k == |log| {
      assert log[..k] == log;
    } else {
      var n := |log| - 1;
      ImagesGrowOnly(log[..n], k, t);
      assert log[..n][..k] == log[..k];
    }
  }

  lemma {:induction false} CommitIdsMembers(log: seq<Frame>, t: nat)
    ensures t in CommitIds(log) <==> exists i :: 0 <= i < |log| && log[i] == Commit(t)
  {
    if log != [] {
      var n := |log| - 1;
      CommitIdsMembers(log[..n], t);
      if i :| 0 <= i < |log| && log[i] == Commit(t) {
        if i < n {
          assert log[..n][i] == Commit(t);
        }
      }
      if t in CommitIds(log[..n]) {
        var i :| 0 <= i < n && log[..n][i] == Commit(t);
        assert log[i] == Commit(t);
      }
    }
  }

  /** On a log without reused transaction numbers, the two passes of recovery replay exactly what each
      commit frame committed. */
  lemma {:induction false} TwoPassesAgree(log: seq<Frame>)
    requires WellFormed(log)
    ensures Replayed(log) == Committed(log)
  {
    if log != [] {
      var n := |log| - 1;
      var rest, f := log[..n], log[n];
      TwoPassesAgree(rest);
      Append(rest, f);
      assert log == rest + [f];
      forall i | 0 <= i < |CommitIds(rest)|
        ensures Replayed(log)[i] == Replayed(rest)[i]
      {
        var t := CommitIds(rest)[i];
        assert t in CommitIds(rest);
        CommitIdsMembers(rest, t);
        var j :| 0 <= j < n && rest[j] == Commit(t);
        assert log[j] == Commit(t);
        assert CommitIds(log)[i] == t;
      }
    }
  }

  /** With a reused number they do not: the write after the commit is replayed as well. */
  lemma ReusedNumberReplaysTooMuch(p: PageId, a: Page, b: Page)
    requires a != b
    ensures var log := [PageWrite(1, p, a), Commit(1), PageWrite(1, p, b)];
      && |Committed(log)| == 1 && p in Committed(log)[0] && Committed(log)[0][p] == a
      && |Replayed(log)| == 1 && p in Replayed(log)[0] && Replayed(log)[0][p] == b
  {
    var l1 := [PageWrite(1, p, a)];
    var l2 := l1 + [Commit(1)];
    var log := l2 + [PageWrite(1, p, b)];
    Append([], PageWrite(1, p, a));
    assert [] + [PageWrite(1, p, a)] == l1;
    Append(l1, Commit(1));
    Append(l2, PageWrite(1, p, b));
    assert log == [PageWrite(1, p, a), Commit(1), PageWrite(1, p, b)];
  }

  lemma WellFormedAppend(log: seq<Frame>, f: Frame)
    requires WellFormed(log) && f.txn !in CommitIds(log)
    ensures WellFormed(log + [f])
  {
    var log' := log + [f];
    forall i, j | 0 <= i < j < |log'| && log'[i].Commit? ensures log'[j].txn != log'[i].txn {
      if j == |log| {
        assert log[i] == Commit(log[i].txn);
        CommitIdsMembers(log, log[i].txn);
      }
    }
  }

  // ------------------------------------------------------------ a log cut off in the middle of a frame

  const HEADER_SIZE := 9

  function FrameSize(f: Frame): nat { if f.PageWrite? then HEADER_SIZE + PAGE_SIZE else HEADER_SIZE }

  function LogSize(log: seq<Frame>): nat {
    if log == [] then 0 else FrameSize(log[0]) + LogSize(log[1..])
  }

  /** How many frames the read loop of recovery gets out of the first n bytes of the log: it stops at a
      short header, and at a page image cut short. */
  function FramesRead(log: seq<Frame>, n: nat): (k: nat)
    ensures k <= |log|
  {
    if log == [] || n < HEADER_SIZE then 0
    else if log[0].PageWrite? && n - HEADER_SIZE < PAGE_SIZE then 0
    else 1 + FramesRead(log[1..], n - FrameSize(log[0]))
  }

  /** Recovery reads exactly the frames that are complete, so what survives of the synced part is read. */
  lemma {:induction false} CompleteFramesAreRead(log: seq<Frame>, n: nat, j: nat)
    requires j <= |log|
    ensures j <= FramesRead(log, n) <==> LogSize(log[..j]) <= n
  {
    if j > 0 {
      assert log[..j][1..] == log[1..][..j - 1];
      if n >= FrameSize(log[0]) {
        CompleteFramesAreRead(log[1..], n - FrameSize(log[0]), j - 1);
      }
    }
  }
}
