/** Byte space in a page: which rewrites fit (src/btree/btree_node.cpp:222-249, src/btree/btree.cpp:119-183). */
module Space {
  import opened Keys
  import opened Pages
  import opened TreeShape

  predicate Fits(page: Page) { Used(page) <= CAPACITY }

  // ------------------------------------------------------------ sums

  lemma {:induction false} LeafUsedJoin(a: seq<LeafEntry>, b: seq<LeafEntry>)
    ensures LeafUsed(a + b) == LeafUsed(a) + LeafUsed(b)
  {
    if a == [] {
      assert a + b == b;
    } else {
      assert (a + b)[1..] == a[1..] + b;
      LeafUsedJoin(a[1..], b);
    }
  }

  lemma {:induction false} InternalUsedJoin(a: seq<InternalEntry>, b: seq<InternalEntry>)
    ensures InternalUsed(a + b) == InternalUsed(a) + InternalUsed(b)
  {
    if a == [] {
      assert a + b == b;
    } else {
      assert (a + b)[1..] == a[1..] + b;
      InternalUsedJoin(a[1..], b);
    }
  }

  lemma {:induction false} LeafUsedAtMost(entries: seq<LeafEntry>, bound: nat)
    requires forall i :: 0 <= i < |entries| ==> LeafEntrySize(entries[i]) <= bound
    ensures LeafUsed(entries) <= |entries| * bound
  {
    hide KeySize;
    if entries != [] {
      LeafUsedAtMost(entries[1..], bound);
      assert |entries| * bound == bound + |entries[1..]| * bound;
    }
  }

  lemma {:induction false} InternalUsedAtMost(cells: seq<InternalEntry>, bound: nat)
    requires forall i :: 0 <= i < |cells| ==> InternalEntrySize(cells[i].key) <= bound
    ensures InternalUsed(cells) <= |cells| * bound
  {
    hide KeySize;
    if cells != [] {
      InternalUsedAtMost(cells[1..], bound);
      assert |cells| * bound == bound + |cells[1..]| * bound;
    }
  }

  // ------------------------------------------------------------ what small entries guarantee

  /** A leaf that has no room for a small entry has at least two. */
  lemma OverflowingLeafHasTwo(entries: seq<LeafEntry>, e: LeafEntry)
    requires forall i :: 0 <= i < |entries| ==> SmallEntry(entries[i])
    requires SmallEntry(e) && LeafEntrySize(e) > CAPACITY - LeafUsed(entries)
    ensures |entries| >= 2
  {
    hide KeySize;
    if |entries| < 2 {
      LeafUsedAtMost(entries, CAPACITY / 2 - 1);
    }
  }

  /** A leaf that may donate an entry keeps at least one. */
  lemma DonorLeafHasTwo(entries: seq<LeafEntry>)
    requires forall i :: 0 <= i < |entries| ==> SmallEntry(entries[i])
    requires LeafUsed(entries) >= CAPACITY / 2
    ensures |entries| >= 2
  {
    hide KeySize;
    if |entries| < 2 {
      LeafUsedAtMost(entries, CAPACITY / 2 - 1);
    }
  }

  /** An internal node that has no room for a small separator, or is full, has at least four. */
  lemma CrowdedInternalHasFour(cells: seq<InternalEntry>, room: nat)
    requires forall i :: 0 <= i < |cells| ==> SmallKey(cells[i].key)
    requires room <= CAPACITY / 4 && InternalUsed(cells) > CAPACITY - room
    ensures |cells| >= 4
  {
    hide KeySize;
    if |cells| < 4 {
      InternalUsedAtMost(cells, CAPACITY / 4);
    }
  }

  lemma DonorInternalHasTwo(cells: seq<InternalEntry>)
    requires forall i :: 0 <= i < |cells| ==> SmallKey(cells[i].key)
    requires InternalUsed(cells) >= CAPACITY / 2
    ensures |cells| >= 2
  {
    hide KeySize;
    if |cells| < 2 {
      InternalUsedAtMost(cells, CAPACITY / 4);
    }
  }

  // ------------------------------------------------------------ what fits

  /** Merging two underfull leaves always fits the page. */
  lemma MergedLeavesFit(parent: PageId, next: PageId, a: seq<LeafEntry>, b: seq<LeafEntry>)
    requires LeafUsed(a) < CAPACITY / 2 && LeafUsed(b) < CAPACITY / 2
    ensures Fits(Leaf(parent, next, a + b))
  {
    LeafUsedJoin(a, b);
  }

  /** An underfull leaf has room for one borrowed entry of at most half the capacity. */
  lemma BorrowedEntryFits(parent: PageId, next: PageId, a: seq<LeafEntry>, e: LeafEntry)
    requires LeafUsed(a) < CAPACITY / 2 && LeafEntrySize(e) <= CAPACITY / 2 + 1
    ensures Fits(Leaf(parent, next, a + [e])) && Fits(Leaf(parent, next, [e] + a))
  {
    LeafUsedJoin(a, [e]);
    LeafUsedJoin([e], a);
  }

  /** After a leaf is split before entry mid, a new entry fits its half exactly when the room the other
      half left behind, together with what was free before, is large enough. */
  lemma InsertAfterSplitFits(parent: PageId, next: PageId, entries: seq<LeafEntry>, mid: nat, e: LeafEntry, left: bool, i: nat)
    requires mid <= |entries| && LeafUsed(entries) <= CAPACITY
    requires i <= |if left then entries[..mid] else entries[mid..]|
    ensures var half, other := if left then entries[..mid] else entries[mid..], if left then entries[mid..] else entries[..mid];
      Fits(Leaf(parent, next, half[..i] + [e] + half[i..])) <==>
      LeafEntrySize(e) <= LeafUsed(other) + (CAPACITY - LeafUsed(entries))
  {
    var half := if left then entries[..mid] else entries[mid..];
    assert entries == entries[..mid] + entries[mid..];
    LeafUsedJoin(entries[..mid], entries[mid..]);
    assert half == half[..i] + half[i..];
    LeafUsedJoin(half[..i], half[i..]);
    LeafUsedJoin(half[..i] + [e], half[i..]);
    LeafUsedJoin(half[..i], [e]);
  }

  lemma {:induction false} UniformUsed(entries: seq<LeafEntry>, size: nat)
    requires forall i :: 0 <= i < |entries| ==> LeafEntrySize(entries[i]) == size
    ensures LeafUsed(entries) == |entries| * size
  {
    hide KeySize;
    if entries != [] {
      UniformUsed(entries[1..], size);
      assert |entries| * size == size + |entries[1..]| * size;
    }
  }

  /** With entries of one size, two of which fit a page, one split always makes room. */
  lemma UniformInsertAfterSplitFits(parent: PageId, next: PageId, entries: seq<LeafEntry>, e: LeafEntry, left: bool, i: nat)
    requires forall j :: 0 <= j < |entries| ==> LeafEntrySize(entries[j]) == LeafEntrySize(e)
    requires |entries| >= 2 && LeafUsed(entries) <= CAPACITY
    requires i <= |if left then entries[..|entries| / 2] else entries[|entries| / 2..]|
    ensures var half := if left then entries[..|entries| / 2] else entries[|entries| / 2..];
      Fits(Leaf(parent, next, half[..i] + [e] + half[i..]))
  {
    var mid := |entries| / 2;
    var other := if left then entries[mid..] else entries[..mid];
    UniformUsed(other, LeafEntrySize(e));
    InsertAfterSplitFits(parent, next, entries, mid, e, left, i);
  }

  // ------------------------------------------------------------ where the code runs out of room

  lemma IntKeySize(i: Int32)
    ensures KeySize([Int(i)]) == 7
  {
    var key: Key := [Int(i)];
    assert key[1..] == [];
    assert ValuesSize(key) == ValueSize(key[0]) + ValuesSize(key[1..]);
  }

  function IntEntry(i: Int32, size: nat): LeafEntry
    requires 11 <= size
    ensures LeafEntrySize(IntEntry(i, size)) == size
  {
    IntKeySize(i);
    LeafEntry([Int(i)], seq(size - 11, _ => 0))
  }

  /** The count-based split does not make room for every entry: a leaf of two large and two small entries
      is split into the large half and the small half, and an entry bound for the large half overflows
      the page although every entry is below half a page. */
  lemma SplitMayNotMakeRoom()
    ensures var entries := [IntEntry(10, 1900), IntEntry(20, 1900), IntEntry(30, 20), IntEntry(40, 20)];
      var e := IntEntry(15, 1900);
      && Fits(Leaf(1, 2, entries)) && LeafEntrySize(e) > CAPACITY - LeafUsed(entries)
      && (forall i :: 0 <= i < 4 ==> SmallEntry(entries[i])) && SmallEntry(e)
      && SortedPlace4(entries, e)
      && !Fits(Leaf(1, 2, [entries[0], e, entries[1]]))
  {
    var entries := [IntEntry(10, 1900), IntEntry(20, 1900), IntEntry(30, 20), IntEntry(40, 20)];
    var e := IntEntry(15, 1900);
    assert entries == [entries[0]] + ([entries[1]] + ([entries[2]] + [entries[3]]));
    LeafUsedJoin([entries[0]], [entries[1]] + ([entries[2]] + [entries[3]]));
    LeafUsedJoin([entries[1]], [entries[2]] + [entries[3]]);
    LeafUsedJoin([entries[2]], [entries[3]]);
    var half := [entries[0], e, entries[1]];
    assert half == [entries[0]] + ([e] + [entries[1]]);
    LeafUsedJoin([entries[0]], [e] + [entries[1]]);
    LeafUsedJoin([e], [entries[1]]);
  }

  predicate SortedPlace4(entries: seq<LeafEntry>, e: LeafEntry)
    requires |entries| == 4
  {
    Lt(entries[0].key, e.key) && Lt(e.key, entries[1].key)
  }

  lemma {:induction false} UniformCellsUsed(cells: seq<InternalEntry>, size: nat)
    requires forall i :: 0 <= i < |cells| ==> InternalEntrySize(cells[i].key) == size
    ensures InternalUsed(cells) == |cells| * size
  {
    hide KeySize;
    if cells != [] {
      UniformCellsUsed(cells[1..], size);
      assert |cells| * size == size + |cells[1..]| * size;
    }
  }

  /** The merge of two internal nodes fits exactly when the separator between them also finds room. */
  lemma MergedInternalsFit(parent: PageId, rightmost: PageId, a: seq<InternalEntry>, e: InternalEntry, b: seq<InternalEntry>)
    ensures Fits(Internal(parent, rightmost, a + [e] + b)) <==>
      InternalUsed(a) + InternalEntrySize(e.key) + InternalUsed(b) <= CAPACITY
  {
    InternalUsedJoin(a + [e], b);
    InternalUsedJoin(a, [e]);
  }

  function IntCells(from: nat, n: nat): (cells: seq<InternalEntry>)
    requires from + n < 1000
    ensures |cells| == n && forall i :: 0 <= i < n ==> cells[i] == InternalEntry([Int(from + i)], 1)
  {
    seq(n, i requires 0 <= i < n => InternalEntry([Int(from + i)], 1))
  }

  /** Two underfull internal nodes whose merge overflows the page by two bytes: 185 one-INT separators each. */
  lemma MergedInternalsMayNotFit()
    ensures var a, e, b := IntCells(0, 185), InternalEntry([Int(185)], 1), IntCells(186, 185);
      && IsUnderfull(Internal(1, 1, a)) && IsUnderfull(Internal(1, 1, b))
      && Used(Internal(1, 1, a + [e] + b)) == CAPACITY + 2
  {
    hide IntCells, InternalUsed;
    var a, e, b := IntCells(0, 185), InternalEntry([Int(185)], 1), IntCells(186, 185);
    IntCellsUsed(0, 185);
    IntCellsUsed(186, 185);
    IntKeySize(185);
    InternalUsedJoin(a + [e], b);
    InternalUsedJoin(a, [e]);
    InternalUsedOne(e);
  }

  lemma IntCellsUsed(from: nat, n: nat)
    requires from + n < 1000
    ensures InternalUsed(IntCells(from, n)) == 11 * n
  {
    forall i: Int32 ensures KeySize([Int(i)]) == 7 {
      IntKeySize(i);
    }
    UniformCellsUsed(IntCells(from, n), 11);
  }

  lemma InternalUsedOne(e: InternalEntry)
    ensures InternalUsed([e]) == InternalEntrySize(e.key)
  {
  }
}
