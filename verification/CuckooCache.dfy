/** The cuckoo cache (src/cuckoocache.h): bit-packed flags, insert, contains and the ageing of epochs. */
module CuckooCache {
  import opened Common
  import opened CuckooTable
  import opened CuckooWalk

  // ---- bit_packed_atomic_flags ----

  /** 1 << k */
  function Mask(k: nat): bv8
    requires k < 8
  {
    match k
    case 0 => 0x01
    case 1 => 0x02
    case 2 => 0x04
    case 3 => 0x08
    case 4 => 0x10
    case 5 => 0x20
    case 6 => 0x40
    case 7 => 0x80
  }

  predicate Bit(byte: bv8, k: nat)
    requires k < 8
  {
    Mask(k) & byte != 0
  }

  function WithBit(byte: bv8, k: nat): bv8
    requires k < 8
  {
    byte | Mask(k)
  }

  function WithoutBit(byte: bv8, k: nat): bv8
    requires k < 8
  {
    byte & !Mask(k)
  }

  lemma OneBit(byte: bv8, k: nat, j: nat)
    requires k < 8 && j < 8
    ensures Bit(WithBit(byte, k), j) <==> j == k || Bit(byte, j)
    ensures Bit(WithoutBit(byte, k), j) <==> j != k && Bit(byte, j)
  {
  }

  lemma AllBits(k: nat)
    requires k < 8
    ensures Bit(0xFF, k)
  {
  }

  /** The first n flags. */
  ghost function Flags(mem: seq<bv8>, n: nat): (f: seq<bool>)
    requires n <= 8 * |mem|
    ensures |f| == n
  {
    seq(n, i requires 0 <= i < n => Bit(mem[i / 8], i % 8))
  }

  lemma FlagsChanged(mem: seq<bv8>, n: nat, s: nat, byte: bv8, on: bool)
    requires s < n <= 8 * |mem|
    requires forall j :: 0 <= j < 8 ==> Bit(byte, j) == if j == s % 8 then on else Bit(mem[s / 8], j)
    ensures Flags(mem[s / 8 := byte], n) == Flags(mem, n)[s := on]
  {
    hide Bit;
    var a, b := Flags(mem[s / 8 := byte], n), Flags(mem, n)[s := on];
    forall i | 0 <= i < n
      ensures a[i] == b[i]
    {
      assert i / 8 == s / 8 ==> Bit(byte, i % 8) == if i % 8 == s % 8 then on else Bit(mem[s / 8], i % 8);
    }
  }

  method BitSet(mem: array<bv8>, s: nat, ghost n: nat)
    requires s < n <= 8 * mem.Length
    modifies mem
    ensures Flags(mem[..], n) == Flags(old(mem[..]), n)[s := true]
  {
    hide Flags, Bit, WithBit;
    var byte := WithBit(mem[s / 8], s % 8);
    forall j | 0 <= j < 8
      ensures Bit(byte, j) == if j == s % 8 then true else Bit(mem[s / 8], j)
    {
      OneBit(mem[s / 8], s % 8, j);
    }
    FlagsChanged(mem[..], n, s, byte, true);
    mem[s / 8] := byte;
    assert mem[..] == old(mem[..])[s / 8 := byte];
  }

  method BitUnset(mem: array<bv8>, s: nat, ghost n: nat)
    requires s < n <= 8 * mem.Length
    modifies mem
    ensures Flags(mem[..], n) == Flags(old(mem[..]), n)[s := false]
  {
    hide Flags, Bit, WithoutBit;
    var byte := WithoutBit(mem[s / 8], s % 8);
    forall j | 0 <= j < 8
      ensures Bit(byte, j) == if j == s % 8 then false else Bit(mem[s / 8], j)
    {
      OneBit(mem[s / 8], s % 8, j);
    }
    FlagsChanged(mem[..], n, s, byte, false);
    mem[s / 8] := byte;
    assert mem[..] == old(mem[..])[s / 8 := byte];
  }

  method BitIsSet(mem: array<bv8>, s: nat, ghost n: nat) returns (set_: bool)
    requires s < n <= 8 * mem.Length
    ensures set_ == Flags(mem[..], n)[s]
  {
    set_ := Bit(mem[s / 8], s % 8);
  }

  // ---- the cache ----

  const INVALID: nat := 0xFFFF_FFFF

  /** 45 percent of the size, rounded down but at least one, where the product does not wrap around in 32 bits. */
  function EpochSize(size: nat): (n: nat)
    ensures n >= 1
    ensures 45 * size < TWO32 ==> 45 * size < 100 * n + 100 && (n == 1 || 100 * n <= 45 * size)
  {
    var n := 45 * size % TWO32 / 100;
    if n < 1 then 1 else n
  }

  /** The most entries that one epoch can keep. */
  function EpochBound(epochSize: nat): nat {
    epochSize + if epochSize / 16 < 1 then 1 else epochSize / 16
  }

  predicate Distinct(a: object, b: object, c: object) {
    a != b && b != c && a != c
  }

  /** Whether epoch_check starts a new epoch. */
  ghost predicate EpochEnds<E>(s: Slots<E>, size: nat, counter: nat, epochSize: nat)
    requires s.Shape(size)
  {
    counter == 0 && |RecentSlots(s, size)| >= epochSize
  }

  /** What epoch_check leaves of the contents. */
  ghost function EpochChecked<E>(s: Slots<E>, size: nat, counter: nat, epochSize: nat): (t: Slots<E>)
    requires s.Shape(size)
    ensures t.Shape(size)
  {
    if EpochEnds(s, size, counter, epochSize) then Aged(s, size) else s
  }

  ghost function CounterChecked<E>(s: Slots<E>, size: nat, counter: nat, epochSize: nat): nat
    requires s.Shape(size)
  {
    if counter != 0 then counter - 1
    else if |RecentSlots(s, size)| >= epochSize then epochSize
    else Max(1, Max(epochSize / 16, epochSize - |RecentSlots(s, size)|))
  }

  function Max(a: int, b: int): int {
    if a < b then b else a
  }

  /** Neither epoch exceeds its bound, and the counter leaves room for the inserts up to the next check. */
  ghost predicate Bounded<E>(s: Slots<E>, size: nat, counter: nat, epochSize: nat)
    requires s.Shape(size)
  {
    |RecentSlots(s, size)| + counter <= EpochBound(epochSize) && |OldSlots(s, size)| <= EpochBound(epochSize)
  }

  /**
   * The state that one insert leaves, given what epoch_check left: at most one element is lost, and the current epoch
   * takes at most one slot more. The blank element counts for its slot only.
   */
  ghost predicate Inserted<E>(s: Slots<E>, t: Slots<E>, size: nat, blank: E, e: E, lost: set<E>)
    requires s.Shape(size) && t.Shape(size)
  {
    && |lost| <= 1 && lost <= Kept(s, size, blank) + {e}
    && Kept(t, size, blank) == Kept(s, size, blank) + ({e} - {blank}) - lost
    && Recent(t, size, blank) == Recent(s, size, blank) + ({e} - {blank}) - lost
    && |RecentSlots(t, size)| <= |RecentSlots(s, size)| + 1 && |OldSlots(t, size)| <= |OldSlots(s, size)|
  }

  /**
   * Where the new element and what is lost end up. If it is there already it is only marked; if one of its locations may
   * be overwritten it goes to the first of those; else something can be lost, and with a single round that is the
   * occupant of the second location.
   */
  ghost predicate InsertedAt<E>(s: Slots<E>, t: Slots<E>, hash: Hash<E>, size: nat, blank: E, e: E, limit: nat, lost: set<E>)
    requires s.Shape(size) && t.Shape(size) && size > 0
  {
    && (lost != {} && limit >= 1 ==> Full(s, hash, size, e) && forall k :: 0 <= k < 8 ==> s.table[Location(hash, size, e, k)] != e)
    && (forall k :: FirstFound(s, hash, size, e, k) ==> t == Changed(s, Location(hash, size, e, k), e, false, true))
    && (limit >= 1 && (forall k :: 0 <= k < 8 ==> s.table[Location(hash, size, e, k)] != e) ==>
          && (forall k :: FirstOpen(s, hash, size, e, k) ==> t == Changed(s, Location(hash, size, e, k), e, false, true))
          && (limit == 1 && Full(s, hash, size, e) ==>
                var loc := Location(hash, size, e, 1);
                t == Changed(s, loc, e, false, true) && lost == {s.table[loc]} - {blank})
          && (limit >= 1 && Full(s, hash, size, e) ==> exists n :: Displaced(s, t, hash, size, blank, e, INVALID, limit, n, lost)))
    && (limit >= 1 && !Full(s, hash, size, e) ==> e == blank || e in Recent(t, size, blank))
  }

  /** The first of the locations of e that holds it has the number k. */
  ghost predicate FirstFound<E>(s: Slots<E>, hash: Hash<E>, size: nat, e: E, k: nat)
    requires s.Shape(size) && size > 0
  {
    k < 8 && s.table[Location(hash, size, e, k)] == e && forall i :: 0 <= i < k ==> s.table[Location(hash, size, e, i)] != e
  }

  lemma DisplacedAt<E>(s: Slots<E>, t: Slots<E>, hash: Hash<E>, size: nat, blank: E, e: E, limit: nat, n: nat, lost: set<E>)
    requires s.Shape(size) && t.Shape(size) && 0 < size <= INVALID && Displaced(s, t, hash, size, blank, e, INVALID, limit, n, lost)
    requires Inserted(s, t, size, blank, e, lost) && forall k :: 0 <= k < 8 ==> s.table[Location(hash, size, e, k)] != e
    ensures InsertedAt(s, t, hash, size, blank, e, limit, lost)
  {
    hide Location, Displaced, Recent, Kept, RecentSlots, OldSlots;
    LostOnlyIfFull(s, t, hash, size, blank, e, INVALID, limit, n, lost);
    if limit >= 1 {
      forall k | FirstOpen(s, hash, size, e, k)
        ensures lost == {} && t == Changed(s, Location(hash, size, e, k), e, false, true)
      {
        OpenTaken(s, t, hash, size, blank, e, INVALID, limit, n, lost, k);
      }
      if !Full(s, hash, size, e) {
        assert lost == {};
      }
      if limit == 1 && Full(s, hash, size, e) {
        OneRound(s, t, hash, size, blank, e, INVALID, n, lost);
      }
    }
  }

  /** The bounds hold again after epoch_check and an insert. */
  lemma InsertBounded<E>(s: Slots<E>, t: Slots<E>, hash: Hash<E>, size: nat, blank: E, counter: nat, epochSize: nat, e: E, lost: set<E>)
    requires Homed(s, hash, size, blank) && t.Shape(size) && Bounded(s, size, counter, epochSize) && epochSize >= 1
    requires Inserted(EpochChecked(s, size, counter, epochSize), t, size, blank, e, lost)
    ensures Bounded(t, size, CounterChecked(s, size, counter, epochSize), epochSize)
  {
    hide Aged, Kept, Recent, AtHome, RecentSlots, OldSlots;
    AgedContents(s, hash, size, blank);
  }

  /** In all, no more than two epochs' worth is kept. */
  lemma TwoEpochs<E>(s: Slots<E>, size: nat, blank: E, counter: nat, epochSize: nat)
    requires s.Shape(size) && Bounded(s, size, counter, epochSize)
    ensures |RecentSlots(s, size)| <= EpochBound(epochSize) && |RecentSlots(s, size) + OldSlots(s, size)| <= 2 * EpochBound(epochSize)
    ensures |Recent(s, size, blank)| <= EpochBound(epochSize) && |Kept(s, size, blank)| <= 2 * EpochBound(epochSize)
  {
    KeptInSlots(s, size, blank);
    hide Kept, Recent, RecentSlots, OldSlots;
  }

  lemma ErasedBounded<E>(s: Slots<E>, t: Slots<E>, size: nat, counter: nat, epochSize: nat)
    requires s.Shape(size) && t.Shape(size) && Bounded(s, size, counter, epochSize)
    requires RecentSlots(t, size) <= RecentSlots(s, size) && OldSlots(t, size) <= OldSlots(s, size)
    ensures Bounded(t, size, counter, epochSize)
  {
    hide RecentSlots, OldSlots;
    SubsetSize(RecentSlots(t, size), RecentSlots(s, size));
    SubsetSize(OldSlots(t, size), OldSlots(s, size));
  }

  class Cache<E(==)> {
    const hash: Hash<E>
    const blank: E
    const size: nat
    const depth_limit: nat
    const epoch_size: nat
    const table: array<E>
    const mem: array<bv8>
    const epoch_flags: array<bool>
    var epoch_heuristic_counter: nat

    ghost predicate Shape()
    {
      && 2 <= size <= INVALID && table.Length == size && epoch_flags.Length == size && size <= 8 * mem.Length
      && epoch_size >= 1 && Distinct(table, mem, epoch_flags)
    }

    ghost function St(): (s: Slots<E>)
      reads table, mem, epoch_flags
      requires Shape()
      ensures s.Shape(size)
    {
      Slots(table[..], Flags(mem[..], size), epoch_flags[..])
    }

    /** The contents are in place and within the bounds of two epochs. */
    ghost predicate Valid()
      reads this, table, mem, epoch_flags
    {
      Shape() && Homed(St(), hash, size, blank) && Bounded(St(), size, epoch_heuristic_counter, epoch_size)
    }

    /** setup; depth_limit, the logarithm of the size, may be any number */
    constructor (hash: Hash<E>, blank: E, new_size: nat, depth_limit: nat)
      requires new_size < TWO32
      ensures Valid() && Kept(St(), size, blank) == {} && this.hash == hash && this.blank == blank && size == Max(2, new_size)
      ensures this.depth_limit == depth_limit && epoch_heuristic_counter == epoch_size == EpochSize(size)
      ensures fresh(table) && fresh(mem) && fresh(epoch_flags)
      ensures forall i :: 0 <= i < size ==> table[i] == blank && St().garbage[i]
    {
      this.hash, this.blank, this.depth_limit := hash, blank, depth_limit;
      var n: nat := Max(2, new_size);
      size := n;
      epoch_size := EpochSize(n);
      table := new E[n](_ => blank);
      mem := new bv8[(n + 7) / 8](_ => 0xFF);
      epoch_flags := new bool[n](_ => false);
      epoch_heuristic_counter := EpochSize(n);
      new;
      forall i | 0 <= i < n
        ensures St().garbage[i] && St().table[i] == blank
      {
        AllBits(i % 8);
      }
      assert Kept(St(), size, blank) == {} && RecentSlots(St(), size) == {} && OldSlots(St(), size) == {};
    }

    /** compute_hashes */
    method ComputeHashes(e: E) returns (locs: seq<nat>)
      requires Shape()
      ensures |locs| == 8 && forall k :: 0 <= k < 8 ==> locs[k] == Location(hash, size, e, k)
    {
      hide Location;
      locs := seq(8, k requires 0 <= k => Location(hash, size, e, k));
    }

    /** The loop that looks for an element at its locations. */
    method FindElement(e: E, locs: seq<nat>) returns (k: nat)
      requires Shape() && forall i :: 0 <= i < |locs| ==> locs[i] < size
      ensures k <= |locs| && (k < |locs| ==> table[locs[k]] == e)
      ensures forall i :: 0 <= i < k ==> table[locs[i]] != e
    {
      k := 0;
      while k < |locs| && table[locs[k]] != e
        invariant k <= |locs| && forall i :: 0 <= i < k ==> table[locs[i]] != e
      {
        k := k + 1;
      }
    }

    /** The loop that looks for a slot that may be overwritten. */
    method FindOpen(locs: seq<nat>) returns (k: nat)
      requires Shape() && forall i :: 0 <= i < |locs| ==> locs[i] < size
      ensures k <= |locs| && (k < |locs| ==> St().garbage[locs[k]])
      ensures forall i :: 0 <= i < k ==> !St().garbage[locs[i]]
    {
      hide Flags;
      k := 0;
      var open := false;
      while k < |locs| && !open
        invariant k <= |locs| && forall i :: 0 <= i < k ==> !St().garbage[locs[i]]
        invariant open ==> k < |locs| && St().garbage[locs[k]]
        decreases |locs| - k, !open
      {
        open := BitIsSet(mem, locs[k], size);
        k := if open then k else k + 1;
      }
    }

    /** std::find */
    method FindLocation(locs: seq<nat>, loc: nat) returns (k: nat)
      ensures k <= |locs| && (k < |locs| ==> locs[k] == loc) && forall i :: 0 <= i < k ==> locs[i] != loc
    {
      k := 0;
      while k < |locs| && locs[k] != loc
        invariant k <= |locs| && forall i :: 0 <= i < k ==> locs[i] != loc
      {
        k := k + 1;
      }
    }

    /** please_keep, with an epoch */
    method Keep(loc: nat, recent: bool)
      requires Shape() && loc < size
      modifies mem, epoch_flags
      ensures St() == Changed(old(St()), loc, table[loc], false, recent)
    {
      hide Flags;
      BitUnset(mem, loc, size);
      epoch_flags[loc] := recent;
      assert table[..][loc := table[loc]] == table[..];
    }

    /** An element and its epoch change places with those of a slot that is in use. */
    method Swap(loc: nat, e: E, recent: bool) returns (out: E, epoch: bool)
      requires Shape() && loc < size && !St().garbage[loc]
      modifies table, epoch_flags
      ensures St() == Changed(old(St()), loc, e, false, recent) && out == old(table[loc]) && epoch == old(epoch_flags[loc])
    {
      hide Flags;
      out, table[loc] := table[loc], e;
      epoch, epoch_flags[loc] := epoch_flags[loc], recent;
      assert St().garbage[loc := false] == St().garbage;
    }

    method CountEpoch() returns (n: nat)
      requires Shape()
      ensures n == |RecentSlots(St(), size)|
    {
      hide Flags, RecentSlots;
      n := 0;
      for i := 0 to size
        invariant n == CountRecent(St(), i)
      {
        var collected := BitIsSet(mem, i, size);
        n := n + if epoch_flags[i] && !collected then 1 else 0;
      }
      CountAll(St(), size);
    }

    /** The loop of epoch_check that starts a new epoch. */
    method Age()
      requires Shape()
      modifies mem, epoch_flags
      ensures St() == Aged(old(St()), size)
    {
      hide Flags;
      ghost var s := St();
      for i := 0 to size
        invariant St().table == s.table
        invariant forall j :: 0 <= j < i ==> St().garbage[j] == (s.garbage[j] || !s.recent[j]) && !St().recent[j]
        invariant forall j :: i <= j < size ==> St().garbage[j] == s.garbage[j] && St().recent[j] == s.recent[j]
      {
        if epoch_flags[i] {
          epoch_flags[i] := false;
        } else {
          BitSet(mem, i, size);
        }
      }
    }

    method EpochCheck()
      requires Shape()
      modifies this, mem, epoch_flags
      ensures St() == EpochChecked(old(St()), size, old(epoch_heuristic_counter), epoch_size)
      ensures epoch_heuristic_counter == CounterChecked(old(St()), size, old(epoch_heuristic_counter), epoch_size)
    {
      hide RecentSlots, Flags, Aged;
      if epoch_heuristic_counter != 0 {
        epoch_heuristic_counter := epoch_heuristic_counter - 1;
      } else {
        var epoch_unused_count := CountEpoch();
        if epoch_unused_count >= epoch_size {
          Age();
          epoch_heuristic_counter := epoch_size;
        } else {
          epoch_heuristic_counter := Max(1, Max(epoch_size / 16, epoch_size - epoch_unused_count));
        }
      }
    }

    /**
     * insert: of what epoch_check leaves, together with the new element, at most one element is lost, and every other
     * one keeps its epoch. Nothing is lost while the new element has a location that may be overwritten, and with a
     * single round the one lost is the one that made way.
     */
    method Insert(e: E) returns (ghost lost: set<E>)
      requires Valid()
      modifies this, table, mem, epoch_flags
      ensures Valid()
      ensures Inserted(EpochChecked(old(St()), size, old(epoch_heuristic_counter), epoch_size), St(), size, blank, e, lost)
      ensures InsertedAt(EpochChecked(old(St()), size, old(epoch_heuristic_counter), epoch_size), St(), hash, size, blank, e, depth_limit, lost)
      ensures epoch_heuristic_counter == CounterChecked(old(St()), size, old(epoch_heuristic_counter), epoch_size)
    {
      hide Homed, Recent, Kept, RecentSlots, OldSlots, Flags, Bounded, EpochChecked, CounterChecked, Location, Displaced, Full, FirstOpen;
      CheckedHomed(St(), hash, size, blank, epoch_heuristic_counter, epoch_size);
      EpochCheck();
      ghost var s := St();
      var locs := ComputeHashes(e);
      var k := FindElement(e, locs);
      if k < 8 {
        KeepStep(s, hash, size, blank, locs[k], e, k);
        Keep(locs[k], true);
        lost := {};
      } else {
        if e != blank {
          NotFound(s, hash, size, blank, e);
        }
        ghost var n;
        lost, n := Displace(e, locs);
        DisplacedAt(s, St(), hash, size, blank, e, depth_limit, n, lost);
      }
      InsertBounded(old(St()), St(), hash, size, blank, old(epoch_heuristic_counter), epoch_size, e, lost);
    }

    /** The search for a place: each element that has to make way is placed in its turn. */
    method Displace(e: E, locs: seq<nat>) returns (ghost lost: set<E>, ghost n: nat)
      requires Shape() && Homed(St(), hash, size, blank) && (e == blank || e !in table[..])
      requires |locs| == 8 && forall k :: 0 <= k < 8 ==> locs[k] == Location(hash, size, e, k)
      modifies table, mem, epoch_flags
      ensures Homed(St(), hash, size, blank) && Inserted(old(St()), St(), size, blank, e, lost)
      ensures Displaced(old(St()), St(), hash, size, blank, e, INVALID, depth_limit, n, lost)
    {
      hide Homed, Recent, Kept, RecentSlots, OldSlots, Flags, Location, Inserted, InHand, NextNumber, NumberOf, Walked, Stuck, Settles;
      ghost var s := St();
      InHandFirst(s, size, blank, e);
      WalkedNot(s, hash, size, e);
      var x, locs, last_loc, last_epoch, depth, placed := e, locs, INVALID, true, 0, false;
      while depth < depth_limit && !placed
        invariant Homed(St(), hash, size, blank) && |locs| == 8
        invariant placed ==> Inserted(s, St(), size, blank, e, {})
        invariant !placed ==> InHand(s, St(), size, blank, e, x, last_epoch)
        invariant !placed ==> forall k :: 0 <= k < 8 ==> locs[k] == Location(hash, size, x, k)
        invariant depth <= depth_limit && forall i :: 0 <= i < depth ==> Stuck(s, hash, size, e, INVALID, i)
        invariant !placed ==> Walked(s, hash, size, e, INVALID, depth) == Hand(St(), x, last_epoch, last_loc)
        invariant placed ==> depth < depth_limit && exists k :: Settles(Walked(s, hash, size, e, INVALID, depth), St(), hash, size, k)
        decreases depth_limit - depth, !placed
      {
        var k := FindOpen(locs);
        if k < 8 {
          ghost var h := Hand(St(), x, last_epoch, last_loc);
          PlaceStep(s, St(), hash, size, blank, e, x, last_epoch, locs[k], k);
          table[locs[k]] := x;
          Keep(locs[k], last_epoch);
          placed := true;
          SettlesAt(s, St(), hash, size, e, INVALID, depth, h, locs, k);
        } else {
          ghost var h := Hand(St(), x, last_epoch, last_loc);
          StuckAt(s, hash, size, e, INVALID, depth, h, locs);
          var at := FindLocation(locs, last_loc);
          NumberUnique(hash, size, x, last_loc, at);
          var j := (1 + at) % 8;
          last_loc := locs[j];
          SwapStep(s, St(), hash, size, blank, e, x, last_epoch, last_loc, j);
          WalkedOn(s, hash, size, e, INVALID, depth, h, last_loc);
          x, last_epoch := Swap(last_loc, x, last_epoch);
          locs := ComputeHashes(x);
          depth := depth + 1;
        }
      }
      lost, n := if placed then {} else {x} - {blank}, depth;
      if !placed {
        DropStep(s, St(), size, blank, e, x, last_epoch);
      }
    }

    /** contains: finds every kept element, and may find garbage; an erased element can still be found until it is overwritten */
    method Contains(e: E, erase: bool) returns (found: bool)
      requires Valid()
      modifies mem
      ensures Valid() && table[..] == old(table[..])
      ensures found <==> exists k :: 0 <= k < 8 && table[Location(hash, size, e, k)] == e
      ensures e != blank ==> (found <==> e in table[..])
      ensures e in old(Kept(St(), size, blank)) ==> found
      ensures Kept(St(), size, blank) == old(Kept(St(), size, blank)) - (if erase then {e} else {})
      ensures Recent(St(), size, blank) == old(Recent(St(), size, blank)) - (if erase then {e} else {})
    {
      hide Homed, Recent, Kept, RecentSlots, OldSlots, Flags, Bounded, Location;
      ghost var s := St();
      var locs := ComputeHashes(e);
      var k := FindElement(e, locs);
      found := k < 8;
      FoundExactly(s, hash, size, blank, e, found);
      if found && erase {
        EraseStep(s, hash, size, blank, locs[k], epoch_heuristic_counter, epoch_size);
        BitSet(mem, locs[k], size);
        assert St() == Changed(s, locs[k], e, true, s.recent[locs[k]]);
      }
    }
  }

  lemma FoundExactly<E>(s: Slots<E>, hash: Hash<E>, size: nat, blank: E, e: E, found: bool)
    requires Homed(s, hash, size, blank) && s.Shape(size) && size > 0
    requires found <==> exists k :: 0 <= k < 8 && s.table[Location(hash, size, e, k)] == e
    ensures e != blank ==> (found <==> e in s.table)
    ensures e in Kept(s, size, blank) ==> found
    ensures !found ==> Kept(s, size, blank) - {e} == Kept(s, size, blank) && Recent(s, size, blank) - {e} == Recent(s, size, blank)
  {
    if !found && e != blank {
      NotFound(s, hash, size, blank, e);
    }
    if e in Kept(s, size, blank) {
      var i :| 0 <= i < size && !s.garbage[i] && s.table[i] == e;
      var k := Found(s, hash, size, blank, i);
    }
    RecentIsKept(s, size, blank);
  }

  lemma EraseStep<E>(s: Slots<E>, hash: Hash<E>, size: nat, blank: E, loc: nat, counter: nat, epochSize: nat)
    requires Homed(s, hash, size, blank) && s.Shape(size) && loc < size && Bounded(s, size, counter, epochSize)
    ensures var e := s.table[loc]; var t := Changed(s, loc, e, true, s.recent[loc]);
            && Homed(t, hash, size, blank)
            && Kept(t, size, blank) == Kept(s, size, blank) - {e} && Recent(t, size, blank) == Recent(s, size, blank) - {e}
            && Bounded(t, size, counter, epochSize)
  {
    hide Homed, Kept, Recent, RecentSlots, OldSlots;
    var e := s.table[loc];
    ChangedHomed(s, hash, size, blank, loc, e, true, s.recent[loc]);
    ChangedKept(s, hash, size, blank, loc, e, true, s.recent[loc]);
    ChangedRecent(s, hash, size, blank, loc, e, true, s.recent[loc]);
    ChangedSlots(s, size, loc, e, true, s.recent[loc]);
    ErasedBounded(s, Changed(s, loc, e, true, s.recent[loc]), size, counter, epochSize);
  }

  // ---- runs ----

  datatype Op<E> = Insert(e: E) | Contains(e: E, erase: bool)

  /** After any run from an empty cache, neither epoch exceeds its bound and every element kept is found. */
  method Run<E(==)>(hash: Hash<E>, blank: E, new_size: nat, depth_limit: nat, ops: seq<Op<E>>) returns (c: Cache<E>)
    requires new_size < TWO32
    ensures c.Valid()
    ensures |RecentSlots(c.St(), c.size)| <= EpochBound(c.epoch_size)
    ensures |RecentSlots(c.St(), c.size) + OldSlots(c.St(), c.size)| <= 2 * EpochBound(c.epoch_size)
    ensures |Recent(c.St(), c.size, blank)| <= EpochBound(c.epoch_size) && |Kept(c.St(), c.size, blank)| <= 2 * EpochBound(c.epoch_size)
    ensures forall i :: 0 <= i < c.size && !c.St().garbage[i] ==> exists k :: 0 <= k < 8 && i == Location(hash, c.size, c.table[i], k)
  {
    hide Homed, Recent, Kept, RecentSlots, OldSlots, Flags, Bounded, Location;
    c := new Cache<E>(hash, blank, new_size, depth_limit);
    for n := 0 to |ops|
      invariant c.Valid() && c.hash == hash && c.blank == blank && fresh(c) && fresh(c.table) && fresh(c.mem) && fresh(c.epoch_flags)
    {
      match ops[n]
      case Insert(e) => var _ := c.Insert(e);
      case Contains(e, erase) => var _ := c.Contains(e, erase);
    }
    TwoEpochs(c.St(), c.size, blank, c.epoch_heuristic_counter, c.epoch_size);
    forall i | 0 <= i < c.size && !c.St().garbage[i]
      ensures exists k :: 0 <= k < 8 && i == Location(hash, c.size, c.table[i], k)
    {
      var k := Found(c.St(), hash, c.size, blank, i);
    }
  }

  /** An element is found after its insert whenever one of its locations could be overwritten. */
  method InsertAndFind<E(==)>(c: Cache<E>, e: E) returns (found: bool)
    requires c.Valid() && c.depth_limit >= 1
    requires !Full(EpochChecked(c.St(), c.size, c.epoch_heuristic_counter, c.epoch_size), c.hash, c.size, e)
    modifies c, c.table, c.mem, c.epoch_flags
    ensures c.Valid() && (e != c.blank ==> found && e in Kept(c.St(), c.size, c.blank))
  {
    hide Homed, Kept, Recent, RecentSlots, OldSlots, Flags, Bounded, Location, EpochChecked, CounterChecked, Full, FirstOpen, FirstFound, Inserted;
    var _ := c.Insert(e);
    RecentIsKept(c.St(), c.size, c.blank);
    found := c.Contains(e, false);
    assert Kept(c.St(), c.size, c.blank) - {} == Kept(c.St(), c.size, c.blank);
  }

  /** In particular the first element is. */
  method FirstFind<E(==)>(hash: Hash<E>, blank: E, new_size: nat, depth_limit: nat, e: E) returns (found: bool)
    requires new_size < TWO32 && depth_limit >= 1
    ensures found
  {
    hide Homed, Kept, Recent, RecentSlots, OldSlots, Flags, Bounded, Location, FirstOpen, FirstFound, Inserted, InsertedAt;
    if e == blank {
      found := BlankFound(hash, blank, new_size, depth_limit);
    } else {
      var c := new Cache<E>(hash, blank, new_size, depth_limit);
      assert c.St().garbage[Location(hash, c.size, e, 0)];
      found := InsertAndFind(c, e);
    }
  }

  /**
   * An element of the current epoch outlasts the next epoch_size + 1 inserts, unless it is displaced: an epoch does not
   * end before its time.
   */
  method Retained<E(==)>(c: Cache<E>, e: E, es: seq<E>) returns (ghost losses: set<E>)
    requires c.Valid() && e in Recent(c.St(), c.size, c.blank) && |es| <= c.epoch_size + 1
    modifies c, c.table, c.mem, c.epoch_flags
    ensures c.Valid() && (e in Kept(c.St(), c.size, c.blank) || e in losses) && |losses| <= |es|
  {
    hide Homed, Kept, Recent, RecentSlots, OldSlots, Flags, Bounded, Location, InsertedAt, EpochChecked, CounterChecked;
    losses := {};
    RecentIsKept(c.St(), c.size, c.blank);
    for n := 0 to |es|
      invariant c.Valid() && |losses| <= n
      invariant e in losses || e in Recent(c.St(), c.size, c.blank) ||
                (e in Kept(c.St(), c.size, c.blank) && c.epoch_heuristic_counter + n >= c.epoch_size + 1)
    {
      Checked(c.St(), c.hash, c.size, c.blank, c.epoch_heuristic_counter, c.epoch_size);
      var lost := c.Insert(es[n]);
      losses := losses + lost;
    }
    RecentIsKept(c.St(), c.size, c.blank);
  }

  /** What one epoch_check does to the elements and to the counter. */
  lemma Checked<E>(s: Slots<E>, hash: Hash<E>, size: nat, blank: E, counter: nat, epochSize: nat)
    requires s.Shape(size) && Homed(s, hash, size, blank)
    ensures var t, d := EpochChecked(s, size, counter, epochSize), CounterChecked(s, size, counter, epochSize);
            if counter != 0 then t == s && d == counter - 1
            else (t == s && d >= 1) || (Kept(t, size, blank) == Recent(s, size, blank) && d == epochSize)
  {
    hide Homed, Kept, Recent, RecentSlots, Aged;
    AgedContents(s, hash, size, blank);
  }

  /** The element that the table is filled with is found before anything is inserted. */
  method BlankFound<E(==)>(hash: Hash<E>, blank: E, new_size: nat, depth_limit: nat) returns (found: bool)
    requires new_size < TWO32
    ensures found
  {
    hide Homed, Recent, Kept, Flags, Bounded, Location;
    var c := new Cache<E>(hash, blank, new_size, depth_limit);
    found := c.Contains(blank, false);
    assert c.table[Location(hash, c.size, blank, 0)] == blank;
  }

  // ---- the steps of insert ----

  lemma CheckedHomed<E>(s: Slots<E>, hash: Hash<E>, size: nat, blank: E, counter: nat, epochSize: nat)
    requires Homed(s, hash, size, blank)
    ensures Homed(EpochChecked(s, size, counter, epochSize), hash, size, blank)
  {
    AgedContents(s, hash, size, blank);
  }

  /** While an element is in hand: unless blank it is nowhere in the table, and with it the contents are complete. */
  ghost predicate InHand<E>(s: Slots<E>, t: Slots<E>, size: nat, blank: E, e: E, x: E, epoch: bool)
    requires s.Shape(size) && t.Shape(size)
  {
    && (x == blank || x !in t.table)
    && Kept(t, size, blank) + ({x} - {blank}) == Kept(s, size, blank) + ({e} - {blank})
    && Recent(t, size, blank) + (if epoch then {x} - {blank} else {}) == Recent(s, size, blank) + ({e} - {blank})
    && |RecentSlots(t, size)| + (if epoch then 1 else 0) <= |RecentSlots(s, size)| + 1
    && |OldSlots(t, size)| + (if epoch then 0 else 1) <= |OldSlots(s, size)|
  }

  lemma InHandFirst<E>(s: Slots<E>, size: nat, blank: E, e: E)
    requires s.Shape(size) && (e == blank || e !in s.table)
    ensures InHand(s, s, size, blank, e, e, true)
  {
  }

  lemma WalkedNot<E>(s: Slots<E>, hash: Hash<E>, size: nat, e: E)
    requires s.Shape(size) && size > 0
    ensures Walked(s, hash, size, e, INVALID, 0) == Hand(s, e, true, INVALID)
  {
  }

  lemma NumberUnique<E>(hash: Hash<E>, size: nat, x: E, loc: nat, n: nat)
    requires n <= 8 && (n < 8 ==> Location(hash, size, x, n) == loc) && forall i :: 0 <= i < n ==> Location(hash, size, x, i) != loc
    ensures NextNumber(hash, size, x, loc) == (1 + n) % 8
  {
    hide Location;
  }

  lemma NotKept<E>(s: Slots<E>, size: nat, blank: E, x: E)
    requires s.Shape(size) && (x == blank || x !in s.table)
    ensures x !in Kept(s, size, blank) && x !in Recent(s, size, blank)
  {
  }

  /** Finding the element already there, be it marked as garbage. */
  lemma KeepStep<E>(s: Slots<E>, hash: Hash<E>, size: nat, blank: E, loc: nat, e: E, k: nat)
    requires s.Shape(size) && Homed(s, hash, size, blank) && loc < size && s.table[loc] == e && k < 8 && loc == Location(hash, size, e, k)
    ensures var t := Changed(s, loc, e, false, true); Homed(t, hash, size, blank) && Inserted(s, t, size, blank, e, {})
  {
    hide Location, Homed, Kept, Recent, RecentSlots, OldSlots;
    assert AtHome(hash, size, e, loc);
    hide AtHome;
    var t := Changed(s, loc, e, false, true);
    ChangedHomed(s, hash, size, blank, loc, e, false, true);
    ChangedKept(s, hash, size, blank, loc, e, false, true);
    ChangedRecent(s, hash, size, blank, loc, e, false, true);
    ChangedSlots(s, size, loc, e, false, true);
    NoBlank(s, size, blank);
    assert Kept(t, size, blank) == Kept(s, size, blank) + ({e} - {blank}) - {};
    assert Recent(t, size, blank) == Recent(s, size, blank) + ({e} - {blank}) - {};
    SubsetSize(OldSlots(t, size), OldSlots(s, size));
    OneMore(RecentSlots(s, size), loc);
  }

  lemma NoBlank<E>(s: Slots<E>, size: nat, blank: E)
    requires s.Shape(size)
    ensures blank !in Kept(s, size, blank) && blank !in Recent(s, size, blank)
  {
  }

  lemma OneMore(a: set<nat>, i: nat)
    ensures |a - {i} + {i}| <= |a| + 1 && |a - {i}| <= |a| && |a - {i} + {i}| == |a - {i}| + 1
    ensures i in a ==> |a - {i}| == |a| - 1
    ensures i !in a ==> a - {i} == a
  {
  }

  /** The element in hand goes into a slot that may be overwritten. */
  lemma PlaceStep<E>(s: Slots<E>, t: Slots<E>, hash: Hash<E>, size: nat, blank: E, e: E, x: E, epoch: bool, loc: nat, k: nat)
    requires t.Shape(size) && Homed(t, hash, size, blank) && s.Shape(size) && InHand(s, t, size, blank, e, x, epoch)
    requires k < 8 && loc == Location(hash, size, x, k) && loc < size && t.garbage[loc]
    ensures var u := Changed(t, loc, x, false, epoch); Homed(u, hash, size, blank) && Inserted(s, u, size, blank, e, {})
  {
    GarbageSlot(t, size, loc);
    hide Location, Homed, Kept, Recent, RecentSlots, OldSlots;
    assert AtHome(hash, size, x, loc);
    hide AtHome;
    var u := Changed(t, loc, x, false, epoch);
    Exchanged(t, u, hash, size, blank, x, epoch, loc);
    OneMore(RecentSlots(t, size), loc);
    OneMore(OldSlots(t, size), loc);
  }

  lemma GarbageSlot<E>(t: Slots<E>, size: nat, loc: nat)
    requires t.Shape(size) && loc < size && t.garbage[loc]
    ensures loc !in RecentSlots(t, size) && loc !in OldSlots(t, size)
  {
  }

  /** What was in the slot, if it was kept, is what the contents lack afterwards. */
  lemma Exchanged<E>(t: Slots<E>, u: Slots<E>, hash: Hash<E>, size: nat, blank: E, x: E, epoch: bool, loc: nat)
    requires t.Shape(size) && Homed(t, hash, size, blank) && loc < size && (x == blank || x !in t.table) && AtHome(hash, size, x, loc)
    requires u == Changed(t, loc, x, false, epoch)
    ensures Homed(u, hash, size, blank)
    ensures var back := if t.garbage[loc] then {} else {t.table[loc]} - {blank};
            && Kept(u, size, blank) + back == Kept(t, size, blank) + ({x} - {blank})
            && Recent(u, size, blank) + (if t.recent[loc] then back else {}) == Recent(t, size, blank) + (if epoch then {x} - {blank} else {})
    ensures |RecentSlots(u, size)| == |RecentSlots(t, size) - {loc}| + (if epoch then 1 else 0)
    ensures |OldSlots(u, size)| == |OldSlots(t, size) - {loc}| + (if epoch then 0 else 1)
  {
    hide Homed, Kept, Recent, AtHome, RecentSlots, OldSlots;
    var y, new_ := t.table[loc], {x} - {blank};
    KeptAt(t, hash, size, blank, loc);
    NoBlank(t, size, blank);
    ChangedHomed(t, hash, size, blank, loc, x, false, epoch);
    ChangedKept(t, hash, size, blank, loc, x, false, epoch);
    ChangedRecent(t, hash, size, blank, loc, x, false, epoch);
    ChangedSlots(t, size, loc, x, false, epoch);
    SlotsFilled(t, u, size, loc, epoch);
    TakenOut(Kept(t, size, blank), y, new_, if t.garbage[loc] then {} else {y} - {blank});
    TakenOut(Recent(t, size, blank), y, if epoch then new_ else {}, if t.garbage[loc] || !t.recent[loc] then {} else {y} - {blank});
  }

  lemma TakenOut<E>(a: set<E>, y: E, new_: set<E>, back: set<E>)
    requires back == if y in a then {y} else {}
    ensures a - {y} + new_ + back == a + new_
  {
  }

  /** How many slots each epoch has once loc is kept for one. */
  lemma SlotsFilled<E>(t: Slots<E>, u: Slots<E>, size: nat, loc: nat, epoch: bool)
    requires t.Shape(size) && u.Shape(size)
    requires RecentSlots(u, size) == RecentSlots(t, size) - {loc} + (if epoch then {loc} else {})
    requires OldSlots(u, size) == OldSlots(t, size) - {loc} + (if !epoch then {loc} else {})
    ensures |RecentSlots(u, size)| == |RecentSlots(t, size) - {loc}| + (if epoch then 1 else 0)
    ensures |OldSlots(u, size)| == |OldSlots(t, size) - {loc}| + (if epoch then 0 else 1)
  {
    hide RecentSlots, OldSlots;
    Refilled(RecentSlots(t, size), loc, epoch);
    Refilled(OldSlots(t, size), loc, !epoch);
  }

  lemma Refilled(a: set<nat>, i: nat, fill: bool)
    ensures |a - {i} + (if fill then {i} else {})| == |a - {i}| + (if fill then 1 else 0)
  {
    assert a - {i} + {} == a - {i};
  }

  /** The element in hand changes places with one that is kept. */
  lemma SwapStep<E>(s: Slots<E>, t: Slots<E>, hash: Hash<E>, size: nat, blank: E, e: E, x: E, epoch: bool, loc: nat, k: nat)
    requires t.Shape(size) && Homed(t, hash, size, blank) && s.Shape(size) && InHand(s, t, size, blank, e, x, epoch)
    requires k < 8 && loc == Location(hash, size, x, k) && loc < size && !t.garbage[loc]
    ensures var u := Changed(t, loc, x, false, epoch);
            Homed(u, hash, size, blank) && InHand(s, u, size, blank, e, t.table[loc], t.recent[loc])
  {
    UsedSlot(t, size, loc);
    hide Location, Homed, Kept, Recent, RecentSlots, OldSlots;
    assert AtHome(hash, size, x, loc);
    hide AtHome;
    var u := Changed(t, loc, x, false, epoch);
    OutOfTable(t, hash, size, blank, loc, x);
    Exchanged(t, u, hash, size, blank, x, epoch, loc);
    OneMore(RecentSlots(t, size), loc);
    OneMore(OldSlots(t, size), loc);
  }

  lemma UsedSlot<E>(t: Slots<E>, size: nat, loc: nat)
    requires t.Shape(size) && loc < size && !t.garbage[loc]
    ensures loc in RecentSlots(t, size) <==> t.recent[loc]
    ensures loc in OldSlots(t, size) <==> !t.recent[loc]
  {
  }

  lemma OutOfTable<E>(t: Slots<E>, hash: Hash<E>, size: nat, blank: E, loc: nat, x: E)
    requires Homed(t, hash, size, blank) && loc < size && (x == blank || x !in t.table)
    ensures t.table[loc] == blank || t.table[loc] !in t.table[loc := x]
  {
    hide AtHome;
  }

  /** Out of depth: the element in hand is dropped. */
  lemma DropStep<E>(s: Slots<E>, t: Slots<E>, size: nat, blank: E, e: E, x: E, epoch: bool)
    requires s.Shape(size) && t.Shape(size) && InHand(s, t, size, blank, e, x, epoch)
    ensures Inserted(s, t, size, blank, e, {x} - {blank})
  {
    NotKept(t, size, blank, x);
    hide Kept, Recent, RecentSlots, OldSlots;
    var lost := {x} - {blank};
    assert x == blank ==> lost == {};
    assert x != blank ==> lost == {x};
    assert lost <= Kept(s, size, blank) + {e};
    assert Kept(t, size, blank) == (Kept(t, size, blank) + lost) - lost;
    assert Recent(t, size, blank) == (Recent(t, size, blank) + (if epoch then lost else {})) - lost;
  }
}
