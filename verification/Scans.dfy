/** What the scans of a tree select (src/btree/btree.cpp:332-517). */
module Scans {
  import opened Keys
  import opened Pages
  import opened TreeShape
  import opened Wrappers

  /** Which entries a scan is after. */
  datatype Criterion =
    | All
    | Range(start: Key, end: Key)
    | Prefix(prefix: Key)
    | Bounded(prefix: Key, lo: Option<Value>, loInclusive: bool, hi: Option<Value>, hiInclusive: bool)

  /** What a scan's loop does with an entry: pass over it, end the scan, or report it. */
  datatype Verdict = Skip | Stop | Take

  function Judge(c: Criterion, k: Key): Verdict {
    match c
    case All => Take
    case Range(start, end) =>
      if Lt(k, start) then Skip else if Lt(end, k) then Stop else Take
    case Prefix(prefix) =>
      if Lt(k, prefix) then Skip else if !HasPrefix(k, prefix) then Stop else Take
    case Bounded(prefix, lo, loInclusive, hi, hiInclusive) =>
      if !HasPrefix(k, prefix) then
        if Lt(k[..if |prefix| < |k| then |prefix| else |k|], prefix) then Skip else Stop
      else if |k| == |prefix| then
        Stop  // k[|prefix|] would be read past the end of the key: excluded by the callers
      else
        var v := k[|prefix|];
        if lo.Some? && ValueLt(v, lo.value) then Skip
        else if lo.Some? && !loInclusive && v == lo.value then Skip
        else if hi.Some? && ValueLt(hi.value, v) then Stop
        else if hi.Some? && !hiInclusive && v == hi.value then Stop
        else Take
  }

  /** What the caller of the scan asked for. */
  predicate Selects(c: Criterion, k: Key) {
    match c
    case All => true
    case Range(start, end) => !Lt(k, start) && !Lt(end, k)
    case Prefix(prefix) => HasPrefix(k, prefix)
    case Bounded(prefix, lo, loInclusive, hi, hiInclusive) =>
      && HasPrefix(k, prefix) && |k| > |prefix|
      && (lo.Some? ==> ValueLt(lo.value, k[|prefix|]) || (loInclusive && k[|prefix|] == lo.value))
      && (hi.Some? ==> ValueLt(k[|prefix|], hi.value) || (hiInclusive && k[|prefix|] == hi.value))
  }

  /** A bounded scan needs keys that go on after the prefix; index entries do, with the primary key. */
  predicate LongEnough(c: Criterion, k: Key) {
    c.Bounded? && HasPrefix(k, c.prefix) ==> |k| > |c.prefix|
  }

  // ------------------------------------------------------------ prefixes and the order

  lemma {:induction false} PrefixNotBelow(k: Key, p: Key)
    requires HasPrefix(k, p)
    ensures !Lt(k, p)
  {
    if p != [] {
      ValueOrder(k[0], k[0], k[0]);
      PrefixNotBelow(k[1..], p[1..]);
    }
  }

  /** The keys with a given prefix are contiguous. */
  lemma {:induction false} PrefixContiguous(k: Key, k': Key, p: Key)
    requires !Lt(k, p) && !HasPrefix(k, p) && Lt(k, k')
    ensures !HasPrefix(k', p)
  {
    if k' != [] && p != [] && k'[0] == p[0] {
      ValueOrder(k[0], p[0], k'[0]);
      ValueOrder(p[0], k[0], k'[0]);
      ValueOrder(k[0], k'[0], k[0]);
      if k[0] == p[0] {
        assert p == [p[0]] + p[1..] && k == [k[0]] + k[1..];
        PrefixContiguous(k[1..], k'[1..], p[1..]);
      }
    }
  }

  /** Below one prefix, keys are ordered by the next element first. */
  lemma {:induction false} NextElementOrdered(k: Key, k': Key, p: Key)
    requires HasPrefix(k, p) && HasPrefix(k', p) && |k| > |p| && |k'| > |p| && Lt(k, k')
    ensures !ValueLt(k'[|p|], k[|p|])
  {
    ValueOrder(k[0], k'[0], k[0]);
    if p != [] {
      assert k[0] == p[0] == k'[0];
      NextElementOrdered(k[1..], k'[1..], p[1..]);
    }
  }

  lemma {:induction false} BelowExtendedPrefix(k: Key, p: Key, v: Value)
    requires HasPrefix(k, p) && |k| > |p| && Lt(k, p + [v])
    ensures ValueLt(k[|p|], v)
  {
    if p == [] {
      assert (p + [v])[1..] == [];
    } else {
      ValueOrder(k[0], k[0], k[0]);
      assert (p + [v])[1..] == p[1..] + [v];
      BelowExtendedPrefix(k[1..], p[1..], v);
    }
  }

  /** Truncating a key that lacks the prefix does not change on which side of the prefix it lies. */
  lemma {:induction false} TruncatedSide(k: Key, p: Key)
    requires !HasPrefix(k, p)
    ensures Lt(k[..if |p| < |k| then |p| else |k|], p) == Lt(k, p)
  {
    var n := if |p| < |k| then |p| else |k|;
    if k != [] && p != [] {
      assert k[..n][0] == k[0] && k[..n][1..] == k[1..][..n - 1];
      if k[0] == p[0] {
        assert p == [p[0]] + p[1..] && k == [k[0]] + k[1..];
        TruncatedSide(k[1..], p[1..]);
      }
    }
  }

  // ------------------------------------------------------------ the loop's tests mean what was asked for

  lemma JudgeMeans(c: Criterion, k: Key)
    requires LongEnough(c, k)
    ensures Judge(c, k).Take? <==> Selects(c, k)
  {
    if c.Prefix? && HasPrefix(k, c.prefix) {
      PrefixNotBelow(k, c.prefix);
    }
    if c.Bounded? && HasPrefix(k, c.prefix) {
      var v := k[|c.prefix|];
      ValueOrder(v, if c.lo.Some? then c.lo.value else v, v);
      ValueOrder(v, if c.hi.Some? then c.hi.value else v, v);
    }
  }

  /** Ending the scan loses nothing. */
  lemma StopIsFinal(c: Criterion, k: Key, k': Key)
    requires Judge(c, k).Stop? && Lt(k, k') && LongEnough(c, k) && LongEnough(c, k')
    ensures !Judge(c, k').Take?
  {
    match c
    case Range(start, end) =>
      KeyOrder(end, k, k');
    case Prefix(prefix) =>
      PrefixContiguous(k, k', prefix);
    case Bounded(prefix, lo, loInclusive, hi, hiInclusive) =>
      if !HasPrefix(k, prefix) {
        TruncatedSide(k, prefix);
        PrefixContiguous(k, k', prefix);
      } else if HasPrefix(k', prefix) {
        NextElementOrdered(k, k', prefix);
        var v, v' := k[|prefix|], k'[|prefix|];
        ValueOrder(v, v', v);
        ValueOrder(hi.value, v, v');
        ValueOrder(v, hi.value, v');
      }
  }

  /** Where the scan may start: nothing it is after lies below. */
  function StartKey(c: Criterion): Option<Key> {
    match c
    case All => None
    case Range(start, _) => Some(start)
    case Prefix(prefix) => Some(prefix)
    case Bounded(prefix, lo, _, _, _) =>
      if lo.Some? then Some(prefix + [lo.value]) else if prefix != [] then Some(prefix) else None
  }

  lemma BelowStartNotTaken(c: Criterion, k: Key)
    requires StartKey(c).Some? && Lt(k, StartKey(c).value) && LongEnough(c, k)
    ensures !Judge(c, k).Take?
  {
    if c.Bounded? && HasPrefix(k, c.prefix) {
      if c.lo.Some? {
        BelowExtendedPrefix(k, c.prefix, c.lo.value);
      } else {
        PrefixNotBelow(k, c.prefix);
      }
    }
  }

  // ------------------------------------------------------------ lists of entries

  predicate KeyBelow(k: Key, b: Bound) { b.PosInf? || (b.At? && Lt(k, b.key)) }

  /** The result lists, in key order, exactly the selected pairs of m whose keys lie below b. */
  ghost predicate ListsBelow(result: seq<LeafEntry>, m: map<Key, Bytes>, c: Criterion, b: Bound) {
    && EntriesSorted(result)
    && (forall i :: 0 <= i < |result| ==>
          var e := result[i];
          e.key in m && m[e.key] == e.value && Selects(c, e.key) && KeyBelow(e.key, b))
    && (forall k :: k in m && Selects(c, k) && KeyBelow(k, b) ==> HasKey(result, k))
  }

  /** ... exactly the selected pairs of m. */
  ghost predicate Lists(result: seq<LeafEntry>, m: map<Key, Bytes>, c: Criterion) {
    ListsBelow(result, m, c, PosInf)
  }

  function Filter(c: Criterion, entries: seq<LeafEntry>): seq<LeafEntry> {
    if entries == [] then []
    else if Selects(c, entries[|entries| - 1].key) then Filter(c, entries[..|entries| - 1]) + [entries[|entries| - 1]]
    else Filter(c, entries[..|entries| - 1])
  }

  lemma {:induction false} FilterMembers(c: Criterion, entries: seq<LeafEntry>, e: LeafEntry)
    ensures e in Filter(c, entries) <==> e in entries && Selects(c, e.key)
  {
    if entries != [] {
      var n := |entries| - 1;
      assert entries == entries[..n] + [entries[n]];
      FilterMembers(c, entries[..n], e);
    }
  }

  lemma {:induction false} FilterSorted(c: Criterion, entries: seq<LeafEntry>)
    requires EntriesSorted(entries)
    ensures EntriesSorted(Filter(c, entries))
  {
    hide Lt;
    if entries != [] {
      var n := |entries| - 1;
      var init := entries[..n];
      FilterSorted(c, init);
      forall e | e in Filter(c, init) ensures Lt(e.key, entries[n].key) {
        FilterMembers(c, init, e);
      }
    }
  }

  /** A sorted list is determined by its members. */
  lemma {:induction false} SortedDetermined(a: seq<LeafEntry>, b: seq<LeafEntry>)
    requires EntriesSorted(a) && EntriesSorted(b) && forall e :: e in a <==> e in b
    ensures a == b
  {
    hide Lt;
    OrderLaws();
    assert |b| > 0 ==> b[0] in b;
    if a == [] {
      assert b == [];
    } else {
      var n, k := |a| - 1, |b| - 1;
      assert a[n] in b;
      var i :| 0 <= i < |b| && b[i] == a[n];
      assert b[k] in a;
      var j :| 0 <= j < |a| && a[j] == b[k];
      assert i == k;
      forall e ensures e in a[..n] <==> e in b[..k] {
        if e in a[..n] {
          assert e in b;
        }
        if e in b[..k] {
          assert e in a;
        }
      }
      SortedDetermined(a[..n], b[..k]);
      assert a == a[..n] + [a[n]] && b == b[..k] + [b[k]];
    }
  }

  lemma ListsMembers(result: seq<LeafEntry>, m: map<Key, Bytes>, c: Criterion, e: LeafEntry)
    requires Lists(result, m, c)
    ensures e in result <==> e.key in m && m[e.key] == e.value && Selects(c, e.key)
  {
    if e.key in m && m[e.key] == e.value && Selects(c, e.key) {
      var i :| 0 <= i < |result| && result[i].key == e.key;
      assert result[i] == e;
    }
  }

  /** Every scan returns the full scan, filtered, in the same order. */
  lemma ScansAreFilters(all: seq<LeafEntry>, result: seq<LeafEntry>, m: map<Key, Bytes>, c: Criterion)
    requires Lists(all, m, All) && Lists(result, m, c)
    ensures result == Filter(c, all)
  {
    FilterSorted(c, all);
    forall e ensures e in result <==> e in Filter(c, all) {
      ListsMembers(result, m, c, e);
      ListsMembers(all, m, All, e);
      FilterMembers(c, all, e);
    }
    SortedDetermined(result, Filter(c, all));
  }

  // ------------------------------------------------------------ the walk through one leaf

  /** Everything selected below lo or among the entries seen has been collected. */
  ghost predicate Collected(result: seq<LeafEntry>, m: map<Key, Bytes>, c: Criterion, lo: Bound, seen: seq<LeafEntry>) {
    && EntriesSorted(result)
    && (forall i :: 0 <= i < |result| ==>
          var e := result[i];
          e.key in m && m[e.key] == e.value && Selects(c, e.key) && (KeyBelow(e.key, lo) || e in seen))
    && (forall k :: k in m && Selects(c, k) && KeyBelow(k, lo) ==> HasKey(result, k))
    && (forall e :: e in seen && Selects(c, e.key) ==> HasKey(result, e.key))
  }

  lemma CollectSkip(result: seq<LeafEntry>, m: map<Key, Bytes>, c: Criterion, lo: Bound, seen: seq<LeafEntry>, e: LeafEntry)
    requires Collected(result, m, c, lo, seen) && !Selects(c, e.key)
    ensures Collected(result, m, c, lo, seen + [e])
  {
    hide Lt, Selects;
  }

  lemma CollectTake(result: seq<LeafEntry>, m: map<Key, Bytes>, c: Criterion, lo: Bound, seen: seq<LeafEntry>, e: LeafEntry)
    requires Collected(result, m, c, lo, seen) && Selects(c, e.key) && e.key in m && m[e.key] == e.value
    requires forall j :: 0 <= j < |result| ==> Lt(result[j].key, e.key)
    ensures Collected(result + [e], m, c, lo, seen + [e])
  {
    hide Lt, Selects;
    var result' := result + [e];
    forall k | HasKey(result, k) || k == e.key ensures HasKey(result', k) {
      if k == e.key {
        assert result'[|result|].key == k;
      } else {
        var i :| 0 <= i < |result| && result[i].key == k;
        assert result'[i].key == k;
      }
    }
  }

  /** At an entry that ends the scan, nothing selected is left. */
  lemma CollectStop(result: seq<LeafEntry>, m: map<Key, Bytes>, c: Criterion, lo: Bound, hi: Bound, entries: seq<LeafEntry>, i: nat)
    requires EntriesOk(m, lo, hi, entries) && i < |entries| && Collected(result, m, c, lo, entries[..i])
    requires Judge(c, entries[i].key).Stop? && forall k :: k in m ==> LongEnough(c, k)
    ensures Lists(result, m, c)
  {
    hide Lt, Selects, Judge, SmallEntry;
    OrderLaws();
    forall k | k in m && Selects(c, k) ensures HasKey(result, k) {
      JudgeMeans(c, k);
      var stop := entries[i].key;
      if Lt(stop, k) {
        StopIsFinal(c, stop, k);
      } else if !KeyBelow(k, lo) {
        assert In(k, lo, hi);
        var j :| 0 <= j < |entries| && entries[j].key == k;
        assert entries[j] in entries[..i];
      }
    }
  }

  lemma CollectEnd(result: seq<LeafEntry>, m: map<Key, Bytes>, c: Criterion, lo: Bound, hi: Bound, entries: seq<LeafEntry>)
    requires EntriesOk(m, lo, hi, entries) && Collected(result, m, c, lo, entries) && BoundLt(lo, hi) && !hi.NegInf?
    ensures ListsBelow(result, m, c, hi)
  {
    hide Lt, Selects, SmallEntry;
    OrderLaws();
    forall k | k in m && Selects(c, k) && KeyBelow(k, hi) ensures HasKey(result, k) {
      if !KeyBelow(k, lo) {
        assert In(k, lo, hi);
        var j :| 0 <= j < |entries| && entries[j].key == k;
        assert entries[j] in entries;
      }
    }
  }
}
