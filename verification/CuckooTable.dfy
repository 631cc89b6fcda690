/** The slots of the cuckoo cache (src/cuckoocache.h) as values, and what each change of a slot does to the contents. */
module CuckooTable {

  const TWO32 := 0x1_0000_0000

  /** The eight hash functions, each giving a 32-bit number. */
  type Hash<!E> = (nat, E) -> nat

  /** Multiply and shift instead of a modulus. */
  function Location<E>(hash: Hash<E>, size: nat, e: E, k: nat): (loc: nat)
    ensures size > 0 ==> loc < size
  {
    var h := hash(k, e) % TWO32;
    ScaledDown(h, size);
    h * size / TWO32
  }

  lemma ScaledDown(h: nat, size: nat)
    requires h < TWO32
    ensures size > 0 ==> 0 <= h * size / TWO32 < size
    ensures 0 <= h * size
  {
    if size > 0 {
      assert h * size < TWO32 * size;
    }
  }

  /** The hash as a fraction of 2^32 is the location as a fraction of the size. */
  lemma LocationExact<E>(hash: Hash<E>, size: nat, e: E, k: nat)
    ensures var h, loc := hash(k, e) % TWO32, Location(hash, size, e, k); loc * TWO32 <= h * size < (loc + 1) * TWO32
  {
    ScaledDown(hash(k, e) % TWO32, size);
  }

  ghost predicate AtHome<E>(hash: Hash<E>, size: nat, e: E, loc: nat) {
    exists k :: 0 <= k < 8 && loc == Location(hash, size, e, k)
  }

  /** The slots: elements, garbage flags and epoch flags. */
  datatype Slots<E> = Slots(table: seq<E>, garbage: seq<bool>, recent: seq<bool>) {
    ghost predicate Shape(size: nat) {
      |table| == size && |garbage| == size && |recent| == size
    }
  }

  /**
   * Every element, even one already marked as garbage, is at one of its own locations and nowhere else. The blank
   * element that the table starts with may be anywhere, but where it is kept it is at one of its own locations, too.
   */
  ghost predicate Homed<E>(s: Slots<E>, hash: Hash<E>, size: nat, blank: E) {
    && s.Shape(size)
    && (forall i :: 0 <= i < size && (s.table[i] != blank || !s.garbage[i]) ==> AtHome(hash, size, s.table[i], i))
    && (forall i, j :: 0 <= i < j < size && s.table[i] == s.table[j] ==> s.table[i] == blank)
  }

  /** The elements kept, leaving out the blank one. */
  ghost function Kept<E>(s: Slots<E>, size: nat, blank: E): set<E>
    requires s.Shape(size)
  {
    set i | 0 <= i < size && !s.garbage[i] && s.table[i] != blank :: s.table[i]
  }

  /** Those of the current epoch among them. */
  ghost function Recent<E>(s: Slots<E>, size: nat, blank: E): set<E>
    requires s.Shape(size)
  {
    set i | 0 <= i < size && !s.garbage[i] && s.recent[i] && s.table[i] != blank :: s.table[i]
  }

  lemma RecentIsKept<E>(s: Slots<E>, size: nat, blank: E)
    requires s.Shape(size)
    ensures Recent(s, size, blank) <= Kept(s, size, blank)
  {
  }

  /** The slots of the current and of the old epoch, whatever they hold. */
  ghost function RecentSlots<E>(s: Slots<E>, size: nat): set<nat>
    requires s.Shape(size)
  {
    set i: nat | i < size && !s.garbage[i] && s.recent[i]
  }

  ghost function OldSlots<E>(s: Slots<E>, size: nat): set<nat>
    requires s.Shape(size)
  {
    set i: nat | i < size && !s.garbage[i] && !s.recent[i]
  }

  /** The elements in some slots are no more than the slots. */
  lemma {:induction false} ElementsIn<E>(table: seq<E>, slots: set<nat>, elements: set<E>)
    requires forall i :: i in slots ==> i < |table|
    requires forall x :: x in elements ==> exists i :: i in slots && table[i] == x
    ensures |elements| <= |slots|
    decreases |slots|
  {
    if slots == {} {
      assert elements == {};
    } else {
      var i :| i in slots;
      forall x | x in elements - {table[i]}
        ensures exists j :: j in slots - {i} && table[j] == x
      {
        var j :| j in slots && table[j] == x;
        assert j in slots - {i};
      }
      ElementsIn(table, slots - {i}, elements - {table[i]});
    }
  }

  lemma KeptInSlots<E>(s: Slots<E>, size: nat, blank: E)
    requires s.Shape(size)
    ensures |Recent(s, size, blank)| <= |RecentSlots(s, size)|
    ensures |Kept(s, size, blank)| <= |RecentSlots(s, size)| + |OldSlots(s, size)|
  {
    forall x | x in Recent(s, size, blank)
      ensures exists i :: i in RecentSlots(s, size) && s.table[i] == x
    {
      var i: nat :| i < size && !s.garbage[i] && s.recent[i] && s.table[i] == x;
      assert i in RecentSlots(s, size);
    }
    ElementsIn(s.table, RecentSlots(s, size), Recent(s, size, blank));
    var all := RecentSlots(s, size) + OldSlots(s, size);
    forall x | x in Kept(s, size, blank)
      ensures exists i :: i in all && s.table[i] == x
    {
      var i: nat :| i < size && !s.garbage[i] && s.table[i] == x;
      assert i in all;
    }
    ElementsIn(s.table, all, Kept(s, size, blank));
    assert RecentSlots(s, size) !! OldSlots(s, size);
  }

  function Changed<E>(s: Slots<E>, loc: nat, x: E, garbage: bool, recent: bool): Slots<E>
    requires s.Shape(|s.table|) && loc < |s.table|
  {
    Slots(s.table[loc := x], s.garbage[loc := garbage], s.recent[loc := recent])
  }

  lemma KeptAt<E>(s: Slots<E>, hash: Hash<E>, size: nat, blank: E, i: nat)
    requires Homed(s, hash, size, blank) && i < size
    ensures s.table[i] in Kept(s, size, blank) <==> !s.garbage[i] && s.table[i] != blank
    ensures s.table[i] in Recent(s, size, blank) <==> !s.garbage[i] && s.recent[i] && s.table[i] != blank
  {
  }

  lemma ChangedHomed<E>(s: Slots<E>, hash: Hash<E>, size: nat, blank: E, loc: nat, x: E, garbage: bool, recent: bool)
    requires Homed(s, hash, size, blank) && loc < size && (x == s.table[loc] || x == blank || x !in s.table)
    requires AtHome(hash, size, x, loc) || (x == s.table[loc] && garbage)
    ensures Homed(Changed(s, loc, x, garbage, recent), hash, size, blank)
  {
    hide AtHome;
  }

  /** What one changed slot does to the contents. */
  lemma ChangedKept<E>(s: Slots<E>, hash: Hash<E>, size: nat, blank: E, loc: nat, x: E, garbage: bool, recent: bool)
    requires Homed(s, hash, size, blank) && loc < size && (x == s.table[loc] || x == blank || x !in s.table)
    ensures Kept(Changed(s, loc, x, garbage, recent), size, blank) ==
            Kept(s, size, blank) - {s.table[loc]} + (if garbage then {} else {x} - {blank})
  {
    hide AtHome;
    var t := Changed(s, loc, x, garbage, recent);
    var y := s.table[loc];
    forall z
      ensures z in Kept(t, size, blank) <==> z in Kept(s, size, blank) - {y} + (if garbage then {} else {x} - {blank})
    {
      if z in Kept(s, size, blank) && z != y {
        var i :| 0 <= i < size && !s.garbage[i] && s.table[i] == z;
        assert t.table[i] == z && t.garbage[i] == s.garbage[i];
      }
      assert t.table[loc] == x && t.garbage[loc] == garbage;
    }
  }

  lemma ChangedRecent<E>(s: Slots<E>, hash: Hash<E>, size: nat, blank: E, loc: nat, x: E, garbage: bool, recent: bool)
    requires Homed(s, hash, size, blank) && loc < size && (x == s.table[loc] || x == blank || x !in s.table)
    ensures Recent(Changed(s, loc, x, garbage, recent), size, blank) ==
            Recent(s, size, blank) - {s.table[loc]} + (if garbage || !recent then {} else {x} - {blank})
  {
    hide AtHome;
    var t := Changed(s, loc, x, garbage, recent);
    var y := s.table[loc];
    forall z
      ensures z in Recent(t, size, blank) <==> z in Recent(s, size, blank) - {y} + (if garbage || !recent then {} else {x} - {blank})
    {
      if z in Recent(s, size, blank) && z != y {
        var i :| 0 <= i < size && !s.garbage[i] && s.recent[i] && s.table[i] == z;
        assert t.table[i] == z && t.garbage[i] == s.garbage[i] && t.recent[i] == s.recent[i];
      }
      assert t.table[loc] == x && t.garbage[loc] == garbage && t.recent[loc] == recent;
    }
  }

  lemma ChangedSlots<E>(s: Slots<E>, size: nat, loc: nat, x: E, garbage: bool, recent: bool)
    requires s.Shape(size) && loc < size
    ensures var t := Changed(s, loc, x, garbage, recent);
            && RecentSlots(t, size) == RecentSlots(s, size) - {loc} + (if !garbage && recent then {loc} else {})
            && OldSlots(t, size) == OldSlots(s, size) - {loc} + (if !garbage && !recent then {loc} else {})
  {
  }

  /** An element not found at its own locations is not in the table at all. */
  lemma NotFound<E>(s: Slots<E>, hash: Hash<E>, size: nat, blank: E, e: E)
    requires Homed(s, hash, size, blank) && size > 0 && e != blank && forall k :: 0 <= k < 8 ==> s.table[Location(hash, size, e, k)] != e
    ensures e !in s.table
  {
    hide Location;
    forall i | 0 <= i < size
      ensures s.table[i] != e
    {
      assert s.table[i] != blank ==> AtHome(hash, size, s.table[i], i);
    }
  }

  /** Every kept element is found at one of its own locations. */
  lemma Found<E>(s: Slots<E>, hash: Hash<E>, size: nat, blank: E, i: nat) returns (k: nat)
    requires Homed(s, hash, size, blank) && i < size && !s.garbage[i]
    ensures k < 8 && i == Location(hash, size, s.table[i], k)
  {
    hide Location;
    k :| 0 <= k < 8 && i == Location(hash, size, s.table[i], k);
  }

  // ---- counting the current epoch ----

  function CountRecent<E>(s: Slots<E>, n: nat): nat
    requires n <= |s.garbage| && n <= |s.recent|
  {
    if n == 0 then 0 else CountRecent(s, n - 1) + if s.recent[n - 1] && !s.garbage[n - 1] then 1 else 0
  }

  ghost function RecentBelow<E>(s: Slots<E>, size: nat, n: nat): set<nat>
    requires s.Shape(size) && n <= size
  {
    set i: nat | i < n && !s.garbage[i] && s.recent[i]
  }

  lemma {:induction false} CountExact<E>(s: Slots<E>, size: nat, n: nat)
    requires s.Shape(size) && n <= size
    ensures CountRecent(s, n) == |RecentBelow(s, size, n)|
  {
    if n > 0 {
      CountExact(s, size, n - 1);
      if s.recent[n - 1] && !s.garbage[n - 1] {
        assert RecentBelow(s, size, n) == RecentBelow(s, size, n - 1) + {n - 1};
      } else {
        assert RecentBelow(s, size, n) == RecentBelow(s, size, n - 1);
      }
    }
  }

  lemma CountAll<E>(s: Slots<E>, size: nat)
    requires s.Shape(size)
    ensures CountRecent(s, size) == |RecentSlots(s, size)|
  {
    CountExact(s, size, size);
    assert RecentBelow(s, size, size) == RecentSlots(s, size);
  }

  /** A new epoch: the old entries become garbage, the current ones become old. */
  function Aged<E>(s: Slots<E>, size: nat): Slots<E>
    requires s.Shape(size)
  {
    Slots(s.table, seq(size, i requires 0 <= i < size => s.garbage[i] || !s.recent[i]), seq(size, _ => false))
  }

  lemma AgedContents<E>(s: Slots<E>, hash: Hash<E>, size: nat, blank: E)
    requires Homed(s, hash, size, blank)
    ensures var t := Aged(s, size);
            && Homed(t, hash, size, blank) && Kept(t, size, blank) == Recent(s, size, blank) && Recent(t, size, blank) == {}
            && OldSlots(t, size) == RecentSlots(s, size) && RecentSlots(t, size) == {}
  {
    hide AtHome;
    var t := Aged(s, size);
    forall z
      ensures z in Kept(t, size, blank) <==> z in Recent(s, size, blank)
    {
      if z in Recent(s, size, blank) {
        var i :| 0 <= i < size && !s.garbage[i] && s.recent[i] && s.table[i] == z;
        assert !t.garbage[i] && t.table[i] == z;
      }
    }
  }
}
