/** The way of insert through the table (src/cuckoocache.h): elements displaced one after the other. */
module CuckooWalk {
  import opened CuckooTable

  /** No location of x may be overwritten. */
  ghost predicate Full<E>(s: Slots<E>, hash: Hash<E>, size: nat, x: E)
    requires s.Shape(size) && size > 0
  {
    forall k :: 0 <= k < 8 ==> !s.garbage[Location(hash, size, x, k)]
  }

  /** The first of the locations of x that may be overwritten is the one with number k. */
  ghost predicate FirstOpen<E>(s: Slots<E>, hash: Hash<E>, size: nat, x: E, k: nat)
    requires s.Shape(size) && size > 0
  {
    k < 8 && s.garbage[Location(hash, size, x, k)] && forall i :: 0 <= i < k ==> !s.garbage[Location(hash, size, x, i)]
  }

  /** The number of the first location of x that is loc, from k on, or 8. */
  function NumberOf<E>(hash: Hash<E>, size: nat, x: E, loc: nat, k: nat): (n: nat)
    requires k <= 8
    ensures k <= n <= 8 && (n < 8 ==> Location(hash, size, x, n) == loc)
    ensures forall i :: k <= i < n ==> Location(hash, size, x, i) != loc
    decreases 8 - k
  {
    if k == 8 || Location(hash, size, x, k) == loc then k else NumberOf(hash, size, x, loc, k + 1)
  }

  /** The location to exchange with: the one after the last, in turn. */
  function NextNumber<E>(hash: Hash<E>, size: nat, x: E, last: nat): nat {
    (1 + NumberOf(hash, size, x, last, 0)) % 8
  }

  /** The table with an element in hand, its epoch, and where that one came from. */
  datatype Hand<E> = Hand(slots: Slots<E>, x: E, epoch: bool, last: nat)

  ghost function Swapped<E>(h: Hand<E>, hash: Hash<E>, size: nat): (r: Hand<E>)
    requires h.slots.Shape(size) && size > 0
    ensures r.slots.Shape(size)
  {
    var loc := Location(hash, size, h.x, NextNumber(hash, size, h.x, h.last));
    Hand(Changed(h.slots, loc, h.x, false, h.epoch), h.slots.table[loc], h.slots.recent[loc], loc)
  }

  /** After n exchanges. */
  ghost function Walked<E>(s: Slots<E>, hash: Hash<E>, size: nat, e: E, none: nat, n: nat): (r: Hand<E>)
    requires s.Shape(size) && size > 0
    ensures r.slots.Shape(size)
  {
    if n == 0 then Hand(s, e, true, none) else Swapped(Walked(s, hash, size, e, none, n - 1), hash, size)
  }

  /** n elements in turn found no place; the next one did, or else the limit is reached and it is lost. */
  ghost predicate Displaced<E>(s: Slots<E>, t: Slots<E>, hash: Hash<E>, size: nat, blank: E, e: E, none: nat, limit: nat, n: nat, lost: set<E>)
    requires s.Shape(size) && size > 0
  {
    var h := Walked(s, hash, size, e, none, n);
    && n <= limit
    && (forall i :: 0 <= i < n ==> Stuck(s, hash, size, e, none, i))
    && if n == limit then t == h.slots && lost == {h.x} - {blank}
       else lost == {} && exists k :: Settles(h, t, hash, size, k)
  }

  ghost predicate Stuck<E>(s: Slots<E>, hash: Hash<E>, size: nat, e: E, none: nat, i: nat)
    requires s.Shape(size) && size > 0
  {
    var h := Walked(s, hash, size, e, none, i);
    Full(h.slots, hash, size, h.x)
  }

  ghost predicate Settles<E>(h: Hand<E>, t: Slots<E>, hash: Hash<E>, size: nat, k: nat)
    requires h.slots.Shape(size) && size > 0
  {
    FirstOpen(h.slots, hash, size, h.x, k) && t == Changed(h.slots, Location(hash, size, h.x, k), h.x, false, h.epoch)
  }

  lemma WalkedOn<E>(s: Slots<E>, hash: Hash<E>, size: nat, e: E, none: nat, n: nat, h: Hand<E>, loc: nat)
    requires s.Shape(size) && size > 0 && h.slots.Shape(size) && Walked(s, hash, size, e, none, n) == h
    requires loc == Location(hash, size, h.x, NextNumber(hash, size, h.x, h.last)) && loc < size
    ensures Walked(s, hash, size, e, none, n + 1) == Hand(Changed(h.slots, loc, h.x, false, h.epoch), h.slots.table[loc], h.slots.recent[loc], loc)
  {
    hide Location, NextNumber;
  }

  lemma StuckAt<E>(s: Slots<E>, hash: Hash<E>, size: nat, e: E, none: nat, n: nat, h: Hand<E>, locs: seq<nat>)
    requires s.Shape(size) && size > 0 && h.slots.Shape(size) && Walked(s, hash, size, e, none, n) == h
    requires |locs| == 8 && forall k :: 0 <= k < 8 ==> locs[k] == Location(hash, size, h.x, k) && locs[k] < size && !h.slots.garbage[locs[k]]
    ensures Stuck(s, hash, size, e, none, n)
  {
    hide Location;
    forall k | 0 <= k < 8
      ensures !h.slots.garbage[Location(hash, size, h.x, k)]
    {
      assert locs[k] == Location(hash, size, h.x, k);
    }
  }

  lemma SettlesAt<E>(s: Slots<E>, t: Slots<E>, hash: Hash<E>, size: nat, e: E, none: nat, n: nat, h: Hand<E>, locs: seq<nat>, k: nat)
    requires s.Shape(size) && size > 0 && h.slots.Shape(size) && Walked(s, hash, size, e, none, n) == h
    requires |locs| == 8 && k < 8 && forall i :: 0 <= i < 8 ==> locs[i] == Location(hash, size, h.x, i) && locs[i] < size
    requires h.slots.garbage[locs[k]] && (forall i :: 0 <= i < k ==> !h.slots.garbage[locs[i]])
    requires t == Changed(h.slots, locs[k], h.x, false, h.epoch)
    ensures Settles(Walked(s, hash, size, e, none, n), t, hash, size, k)
  {
    hide Location;
    forall i | 0 <= i < k
      ensures !h.slots.garbage[Location(hash, size, h.x, i)]
    {
      assert locs[i] == Location(hash, size, h.x, i);
    }
  }

  // ---- what this means for the element and for what is lost ----

  /** An element one of whose locations may be overwritten goes to the first such one, and nothing else changes. */
  lemma OpenTaken<E>(s: Slots<E>, t: Slots<E>, hash: Hash<E>, size: nat, blank: E, e: E, none: nat, limit: nat, n: nat, lost: set<E>, k: nat)
    requires s.Shape(size) && size > 0 && Displaced(s, t, hash, size, blank, e, none, limit, n, lost) && limit >= 1
    requires FirstOpen(s, hash, size, e, k)
    ensures lost == {} && t == Changed(s, Location(hash, size, e, k), e, false, true)
  {
    hide Location;
    assert n == 0 by {
      assert !Stuck(s, hash, size, e, none, 0);
    }
    var h := Walked(s, hash, size, e, none, 0);
    var j :| Settles(h, t, hash, size, j);
    assert j == k;
  }

  /** With a single round the occupant of the second location makes way for the new element, and is lost. */
  lemma OneRound<E>(s: Slots<E>, t: Slots<E>, hash: Hash<E>, size: nat, blank: E, e: E, none: nat, n: nat, lost: set<E>)
    requires s.Shape(size) && size > 0 && Displaced(s, t, hash, size, blank, e, none, 1, n, lost)
    requires Full(s, hash, size, e) && none >= size
    ensures var loc := Location(hash, size, e, 1); t == Changed(s, loc, e, false, true) && lost == {s.table[loc]} - {blank}
  {
    hide Location;
    Elsewhere(hash, size, e, none);
    assert Walked(s, hash, size, e, none, 1) == Swapped(Walked(s, hash, size, e, none, 0), hash, size);
  }

  lemma Elsewhere<E>(hash: Hash<E>, size: nat, e: E, none: nat)
    requires size > 0 && none >= size
    ensures NextNumber(hash, size, e, none) == 1
  {
    var n := NumberOf(hash, size, e, none, 0);
    assert n < 8 ==> Location(hash, size, e, n) < size;
  }

  /** An element is only lost when there was no place for the new one. */
  lemma LostOnlyIfFull<E>(s: Slots<E>, t: Slots<E>, hash: Hash<E>, size: nat, blank: E, e: E, none: nat, limit: nat, n: nat, lost: set<E>)
    requires s.Shape(size) && size > 0 && Displaced(s, t, hash, size, blank, e, none, limit, n, lost)
    ensures lost != {} ==> n == limit && forall i :: 0 <= i < limit ==> Stuck(s, hash, size, e, none, i)
    ensures lost != {} && limit >= 1 ==> Full(s, hash, size, e)
  {
    if lost != {} && limit >= 1 {
      assert Stuck(s, hash, size, e, none, 0);
    }
  }

  /** The element just put down is not picked up again, unless two locations of the one in hand coincide. */
  lemma NotBack<E>(hash: Hash<E>, size: nat, x: E, last: nat)
    requires forall i, j :: 0 <= i < j < 8 ==> Location(hash, size, x, i) != Location(hash, size, x, j)
    ensures Location(hash, size, x, NextNumber(hash, size, x, last)) != last
  {
    hide Location;
    var n := NumberOf(hash, size, x, last, 0);
    var m := (1 + n) % 8;
    if n < 8 {
      assert m != n;
    } else {
      assert m == 1;
    }
  }
}
