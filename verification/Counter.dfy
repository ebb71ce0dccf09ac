/** The auto-increment counter of a table, and the keys it hands out (src/table/table.cpp:66-77, 135-171,
    256-263 and 426-435). */
module Counters {
  import opened Keys

  const UINT32 := 0x1_0000_0000

  /** A 32-bit pattern read as unsigned, and as signed. */
  function ToUint32(i: Int32): nat { if i < 0 then i + UINT32 else i }

  function ToInt32(u: nat): Int32
    requires u < UINT32
  {
    if u < 0x8000_0000 then u else u - UINT32
  }

  /** The counter moves past a key that was used. */
  function Advanced(next: nat, key: Key): (next': nat)
    requires next < UINT32
    ensures next' < UINT32
  {
    if |key| == 1 && key[0].Int? && ToUint32(key[0].i) >= next then (ToUint32(key[0].i) + 1) % UINT32 else next
  }

  /** The keys of a table with one INT key column, and its counter. */
  datatype Counter = Counter(keys: set<Key>, next: nat)

  predicate Sound(c: Counter) {
    c.next < UINT32 && forall k: Key :: k in c.keys ==> |k| == 1 && k[0].Int?
  }

  /** A row comes with a key, or leaves it to the counter. */
  datatype Request = Given(i: Int32) | Absent

  function KeyFor(c: Counter, r: Request): Key
    requires Sound(c)
  {
    if r.Given? then [Int(r.i)] else [Int(ToInt32(c.next))]
  }

  predicate Refused(c: Counter, r: Request)
    requires Sound(c)
  {
    KeyFor(c, r) in c.keys
  }

  /** A duplicate is refused and changes nothing. */
  function Served(c: Counter, r: Request): (c': Counter)
    requires Sound(c)
    ensures Sound(c')
  {
    if Refused(c, r) then c else Counter(c.keys + {KeyFor(c, r)}, Advanced(c.next, KeyFor(c, r)))
  }

  function AllServed(c: Counter, rs: seq<Request>): (c': Counter)
    requires Sound(c)
    ensures Sound(c')
  {
    if rs == [] then c else Served(AllServed(c, rs[..|rs| - 1]), rs[|rs| - 1])
  }

  // ------------------------------------------------------------ one table object

  /** Read as unsigned, every key is below the counter. */
  ghost predicate Ahead(c: Counter)
    requires Sound(c)
  {
    forall k: Key :: k in c.keys ==> ToUint32(k[0].i) < c.next
  }

  lemma ServedStaysAhead(c: Counter, r: Request)
    requires Sound(c) && Ahead(c)
    ensures !Refused(c, Absent)
    ensures [Int(-1)] !in Served(c, r).keys ==> Ahead(Served(c, r))
  {
    var filled := [Int(ToInt32(c.next))];
    assert filled[0].i == ToInt32(c.next) && ToUint32(filled[0].i) == c.next;
    var key := KeyFor(c, r);
    if key !in c.keys && key != [Int(-1)] {
      assert ToUint32(key[0].i) != UINT32 - 1;
    }
  }

  /** Over all runs on one table object: as long as the key -1 is not stored, a key taken from the counter
      is new. */
  lemma {:induction false} FilledKeysAreNew(c: Counter, rs: seq<Request>)
    requires Sound(c) && Ahead(c)
    ensures [Int(-1)] !in AllServed(c, rs).keys ==> Ahead(AllServed(c, rs)) && !Refused(AllServed(c, rs), Absent)
  {
    if rs == [] {
      ServedStaysAhead(c, Absent);
    } else {
      var n := |rs| - 1;
      FilledKeysAreNew(c, rs[..n]);
      var before := AllServed(c, rs[..n]);
      if [Int(-1)] !in AllServed(c, rs).keys {
        assert before.keys <= AllServed(c, rs).keys;
        ServedStaysAhead(before, rs[n]);
        ServedStaysAhead(AllServed(c, rs), Absent);
      }
    }
  }

  function Absents(n: nat): seq<Request> { seq(n, i => Absent) }

  /** n rows without a key, one after the other, take the numbers from the counter on, and no others. */
  lemma {:induction false} AbsentsCount(c: Counter, n: nat)
    requires Sound(c) && c.next + n < UINT32
    requires forall u :: c.next <= u < c.next + n ==> [Int(ToInt32(u))] !in c.keys
    ensures AllServed(c, Absents(n)).next == c.next + n
    ensures forall v :: c.next + n <= v < UINT32 ==> ([Int(ToInt32(v))] in AllServed(c, Absents(n)).keys <==> [Int(ToInt32(v))] in c.keys)
  {
    if n > 0 {
      AbsentsCount(c, n - 1);
      assert Absents(n)[..n - 1] == Absents(n - 1);
      OneMoreAbsent(AllServed(c, Absents(n - 1)));
    }
  }

  lemma OneMoreAbsent(c: Counter)
    requires Sound(c) && c.next < UINT32 - 1 && [Int(ToInt32(c.next))] !in c.keys
    ensures Served(c, Absent).next == c.next + 1
    ensures forall v :: c.next < v < UINT32 ==> ([Int(ToInt32(v))] in Served(c, Absent).keys <==> [Int(ToInt32(v))] in c.keys)
  {
    var key := [Int(ToInt32(c.next))];
    assert key[0].i == ToInt32(c.next) && ToUint32(key[0].i) == c.next;
    forall v | c.next < v < UINT32 ensures [Int(ToInt32(v))] != key {
      assert [Int(ToInt32(v))][0].i != key[0].i;
    }
  }

  /** Until the counter has gone through all numbers, no row without a key is refused. */
  ghost predicate NeverRefused(c: Counter)
    requires Sound(c)
  {
    forall n: nat :: c.next + n < UINT32 - 1 ==> !Refused(AllServed(c, Absents(n)), Absent)
  }

  lemma NeverRefusedMeans(c: Counter)
    requires Sound(c)
    ensures NeverRefused(c) <==> forall u :: c.next <= u < UINT32 - 1 ==> [Int(ToInt32(u))] !in c.keys
  {
    if NeverRefused(c) {
      forall u | c.next <= u < UINT32 - 1 ensures [Int(ToInt32(u))] !in c.keys {
        RefusedOnReaching(c, u);
      }
    }
    if forall u :: c.next <= u < UINT32 - 1 ==> [Int(ToInt32(u))] !in c.keys {
      forall n: nat | c.next + n < UINT32 - 1 ensures !Refused(AllServed(c, Absents(n)), Absent) {
        AbsentsCount(c, n);
      }
    }
  }

  /** If no row without a key is ever refused, number u, when the counter comes to it, is free. */
  lemma {:induction false} RefusedOnReaching(c: Counter, u: nat)
    requires Sound(c) && NeverRefused(c) && c.next <= u < UINT32 - 1
    ensures [Int(ToInt32(u))] !in c.keys
    decreases u
  {
    forall v | c.next <= v < u ensures [Int(ToInt32(v))] !in c.keys {
      RefusedOnReaching(c, v);
    }
    AbsentsCount(c, u - c.next);
    assert !Refused(AllServed(c, Absents(u - c.next)), Absent);
  }

  /** Storing a key is without danger for the rows that follow without one exactly if it is not -1, or the
      table was empty: -1 is the largest number read as unsigned, and takes the counter back to 0. */
  lemma CounterIsSafeIff(c: Counter, i: Int32)
    requires Sound(c) && Ahead(c)
    ensures NeverRefused(Served(c, Given(i))) <==> i != -1 || c.keys == {}
  {
    var after := Served(c, Given(i));
    NeverRefusedMeans(after);
    if i != -1 {
      if [Int(-1)] !in after.keys {
        ServedStaysAhead(c, Given(i));
      } else {
        assert [Int(-1)] in c.keys && ToUint32([Int(-1)][0].i) < c.next;
      }
      forall u | after.next <= u < UINT32 - 1 ensures [Int(ToInt32(u))] !in after.keys {
        assert [Int(ToInt32(u))][0].i == ToInt32(u);
      }
    } else {
      MinusOne(c, after);
    }
  }

  lemma MinusOne(c: Counter, after: Counter)
    requires Sound(c) && Ahead(c) && after == Served(c, Given(-1))
    ensures after == Counter(c.keys + {[Int(-1)]}, 0)
    ensures (forall u :: 0 <= u < UINT32 - 1 ==> [Int(ToInt32(u))] !in after.keys) <==> c.keys == {}
  {
    assert [Int(-1)][0].i == -1;
    assert [Int(-1)] !in c.keys;
    if c.keys != {} {
      var k: Key :| k in c.keys;
      assert k == [Int(k[0].i)] && ToInt32(ToUint32(k[0].i)) == k[0].i;
      assert [Int(ToInt32(ToUint32(k[0].i)))] in after.keys;
    } else {
      forall u | 0 <= u < UINT32 - 1 ensures [Int(ToInt32(u))] !in after.keys {
        assert [Int(ToInt32(u))][0].i != -1;
      }
    }
  }

  /** Four rows into a new table: the keys 1 and -1, and two rows without a key.  The second of these is
      refused, because the counter has come back to 1. */
  lemma FourthRowIsRefused()
    ensures var c := AllServed(Counter({}, 1), [Given(1), Given(-1), Absent]);
      c.next == 1 && Refused(c, Absent)
  {
    var c0, rs := Counter({}, 1), [Given(1), Given(-1), Absent];
    assert rs[..2] == [Given(1), Given(-1)] && rs[..2][..1] == [Given(1)] && [Given(1)][..0] == [];
    assert [Int(1)][0].i == 1 && [Int(-1)][0].i == -1 && [Int(0)][0].i == 0;
    var c1 := Served(c0, Given(1));
    assert c1 == Counter({[Int(1)]}, 2);
    var c2 := Served(c1, Given(-1));
    assert c2.next == 0 && c2.keys == {[Int(1)], [Int(-1)]};
    var c3 := Served(c2, Absent);
    assert c3.next == 1 && [Int(1)] in c3.keys;
    assert AllServed(c0, [Given(1)]) == c1;
    assert AllServed(c0, rs[..2]) == c2;
    assert AllServed(c0, rs) == c3;
  }

  // ------------------------------------------------------------ a table opened for each statement

  /** The last key of a scan. */
  ghost predicate IsLast(keys: set<Key>, last: Key) {
    last in keys && forall k :: k in keys && k != last ==> Lt(k, last)
  }

  /** init_auto_increment: one more than the last key. */
  function Opened(last: Key): (next: nat)
    requires |last| == 1 && last[0].Int?
    ensures next < UINT32
  {
    (ToUint32(last[0].i) + 1) % UINT32
  }

  /** A statement opens its table anew.  Its first row without a key is refused as a duplicate if and only if
      the largest and the smallest INT are both keys of the table. */
  lemma OpenedKeyIsNewIff(keys: set<Key>, last: Key)
    requires Sound(Counter(keys, 0)) && IsLast(keys, last)
    ensures Refused(Counter(keys, Opened(last)), Absent) <==> [Int(0x7FFF_FFFF)] in keys && [Int(-0x8000_0000)] in keys
  {
    var filled := [Int(ToInt32(Opened(last)))];
    assert last == [Int(last[0].i)] && filled[0].i == ToInt32(Opened(last));
    assert [Int(0x7FFF_FFFF)][0].i == 0x7FFF_FFFF && [Int(-0x8000_0000)][0].i == -0x8000_0000;
    forall k: Key | k in keys ensures k[0].i <= last[0].i && k == [Int(k[0].i)] {
      if k != last {
        assert Lt(k, last);
        assert k[1..] == [] && last[1..] == [];
      }
    }
    if last[0].i != 0x7FFF_FFFF {
      assert filled[0].i == last[0].i + 1;
      assert filled !in keys;
      assert [Int(0x7FFF_FFFF)] !in keys;
    } else {
      assert filled == [Int(-0x8000_0000)];
    }
  }
}
