/** What the operations of the address manager do to the fields of an entry, in seconds and plain counts. */
module AddrFields {
  import opened Common
  import opened AddrState
  import opened AddrMoves
  import opened AddrMan
  import opened AddrRun

  // ---- which entries are terrible ----

  /** IsTerrible, in source terms: with times in seconds, and apart from what was tried in the last minute. */
  lemma TerribleCases(i: Info, now: int)
    ensures i.nLastTry != 0 && now - i.nLastTry <= 60 ==> !IsTerrible(i, now)
    ensures i.nLastTry == 0 || now - i.nLastTry > 60 ==>
              (IsTerrible(i, now) <==>
                 || i.address.nTime == 0 || i.address.nTime - now > 600 || now - i.address.nTime > 2592000
                 || (i.nAttempts >= 3 && i.nLastSuccess == 0) || (i.nAttempts >= 10 && now - i.nLastSuccess > 604800))
  {
  }

  /** So an address that was announced within 30 days and has not failed three times is handed out. */
  lemma FreshIsKept(i: Info, now: int)
    requires 0 < i.address.nTime && now - 2592000 <= i.address.nTime <= now + 600 && i.nAttempts < 3
    ensures !IsTerrible(i, now)
  {
    TerribleCases(i, now);
  }

  // ---- placing an entry ----

  /** The other entries that remain keep their address, their source and their statistics. */
  ghost predicate OthersSame(a: map<int, Info>, b: map<int, Info>, id: int) {
    forall x :: x in b && x != id ==>
      x in a && b[x] == a[x].(nRefCount := b[x].nRefCount, fInTried := b[x].fInTried, nRandomPos := b[x].nRandomPos)
  }

  lemma OthersFrom(a: map<int, Info>, b: map<int, Info>, t: map<int, Info>, id: int, i: Info)
    requires SameServices(b, t) && b == a[id := i]
    ensures OthersSame(a, t, id)
  {
  }

  /** Placing changes the reference count and the place in vRandom of an entry, and its slot. */
  lemma PlacedEntry(h: Hashes, s: State, id: int, slot: Slot, insert: bool, loose: set<int>)
    requires Inv(h, s, loose, {}) && id in s.info && loose == (if s.info[id].nRefCount == 0 then {id} else {})
    requires !s.info[id].fInTried && s.info[id].nRefCount < NEW_BUCKETS_PER_ADDRESS
    requires slot.0 < NEW_BUCKET_COUNT && slot.1 == h.BucketPosition(s.info[id], true, slot.0)
    requires insert || s.info[id].nRefCount > 0
    ensures RandomOk(s.info, s.random) && NewTableOk(h, s.info, s.new_)
    ensures var t := Placed(h, s, id, slot, insert); var grows := insert && !Holds(s.new_, slot, id);
            && id in t.info
            && t.info[id] == s.info[id].(nRefCount := s.info[id].nRefCount + (if grows then 1 else 0), nRandomPos := t.info[id].nRandomPos)
            && t.new_ == (if grows then s.new_[slot := id] else s.new_)
  {
    hide Inv, RandomOk, NewTableOk, Deleted, Cleared, Kept, SameServices, SameRefCounts, AddrOk, TriedTableOk, RefsOk, Lost;
    InvParts(h, s, loose, {});
    if insert && !Holds(s.new_, slot, id) {
      PlaceInsert(h, s, id, slot, loose);
      ClearStep(h, s, slot, loose, {});
      ClearKeeps(h, s, slot, loose, {});
      var u := Cleared(h, s, slot);
      SameServicesAt(s.info, u.info, id);
      RefCountAt(s, u, slot, id);
      NotLost(s, slot, id);
      KeptAt(s.info, u.info, Lost(s, slot), id);
      assert (s.new_ - {slot})[slot := id] == s.new_[slot := id];
    }
  }

  lemma NotLost(s: State, slot: Slot, id: int)
    requires !Holds(s.new_, slot, id)
    ensures id !in Lost(s, slot)
  {
  }

  // ---- Add_ of a known address ----

  /** The time of an entry after an announcement: it is moved forward when it is stale. */
  function AnnouncedTime(stored: int, told: int, penalty: int, now: int): int {
    var interval := if now - told < 86400 then 3600 else 86400;
    if told != 0 && (stored == 0 || stored < told - penalty - interval) then (if told > penalty then told - penalty else 0) else stored
  }

  /** Whether a known address that is not tried gets another slot in the "new" table. */
  ghost predicate Gains(h: Hashes, s: State, id: int, address: Address, source: NetAddr, penalty: int, now: int, draw: nat)
    requires id in s.info
  {
    var i, slot := s.info[id], TargetSlot(h, s.info[id], source);
    var time := AnnouncedTime(i.address.nTime, address.nTime, penalty, now);
    && address.nTime != 0 && (time == 0 || address.nTime > time)
    && !i.fInTried && i.nRefCount != 8 && draw % Pow2(if i.nRefCount >= 0 then i.nRefCount else 0) == 0
    && (slot !in s.new_ || (s.new_[slot] != id && s.new_[slot] in s.info && IsTerrible(s.info[s.new_[slot]], now)))
  }

  /**
   * Hearing of a known address: its time, its services and its reference count. Nothing else about the entry changes but
   * its place in vRandom.
   */
  lemma KnownFields(h: Hashes, s: State, address: Address, source: NetAddr, penalty: int, now: int, draw: nat)
    requires Consistent(h, s) && address.service.ip in s.addr
    ensures var id, t := s.addr[address.service.ip], AddedState(h, s, address, source, true, penalty, now, draw);
            && id in s.info && id in t.info
            && var was, is_ := s.info[id], t.info[id]; var gains := Gains(h, s, id, address, source, penalty, now, draw);
               && is_.address.nTime == AnnouncedTime(was.address.nTime, address.nTime, penalty, now)
               && is_.address.nServices == was.address.nServices + address.nServices
               && is_.nRefCount == was.nRefCount + (if gains then 1 else 0)
               && is_ == was.(address := was.address.(nTime := is_.address.nTime, nServices := is_.address.nServices),
                              nRefCount := is_.nRefCount, nRandomPos := is_.nRandomPos)
               && t.new_ == (if gains then s.new_[TargetSlot(h, was, source) := id] else s.new_)
               && OthersSame(s.info, t.info, id)
  {
    hide SameServices, Inv, RandomOk, NewTableOk, AddrOk, TriedTableOk, RefsOk, Placed, IsTerrible, Hashes.NewBucket, Hashes.BucketPosition;
    HeardStep(h, s, address.service.ip, address, penalty, now);
    var id := s.addr[address.service.ip];
    var i := Heard(s.info[id], address, penalty, now);
    var b := WithInfo(s, id, i);
    HeardTime(s.info[id], address, penalty, now);
    RefsAt(h, s, id);
    RefsAt(h, b, id);
    InvParts(h, s, {}, {});
    InvParts(h, b, {}, {});
    var slot := TargetSlot(h, i, source);
    SameTarget(h, s.info[id], i, source);
    if slot in s.new_ {
      SlotHolds(h, s.info, s.new_, slot);
    }
    if MayRepeat(i, address, draw) {
      PlacedEntry(h, b, id, slot, MayInsert(b, id, slot, now), {}) by { TargetRange(h, i, source); }
      SettleMoves(h, b, id, source, now, {});
    } else {
      SameKept(b.info);
    }
    OthersFrom(s.info, b.info, AddedState(h, s, address, source, true, penalty, now, draw).info, id, i);
  }

  lemma HeardTime(i: Info, address: Address, penalty: int, now: int)
    ensures var r := Heard(i, address, penalty, now);
            && r.address.nTime == AnnouncedTime(i.address.nTime, address.nTime, penalty, now)
            && r == i.(address := i.address.(nTime := r.address.nTime, nServices := i.address.nServices + address.nServices))
  {
  }

  lemma SameTarget(h: Hashes, i: Info, j: Info, source: NetAddr)
    requires i.address.service == j.address.service
    ensures TargetSlot(h, i, source) == TargetSlot(h, j, source)
  {
  }

  lemma TargetRange(h: Hashes, i: Info, source: NetAddr)
    ensures var slot := TargetSlot(h, i, source); slot.0 < NEW_BUCKET_COUNT && slot.1 == h.BucketPosition(i, true, slot.0)
  {
  }

  // ---- Add_ of an unknown address ----

  /** A newcomer that is entered is as it was announced, with its time set back and one reference, in its target slot. */
  lemma UnknownFields(h: Hashes, s: State, address: Address, source: NetAddr, penalty: int, now: int, draw: nat)
    requires Consistent(h, s) && address.service.ip !in s.addr
    ensures var id, t := s.nIdCount, AddedState(h, s, address, source, true, penalty, now, draw);
            OthersSame(s.info, t.info, id) && (id in t.info ==>
              && t.info[id] == Info(address.(nTime := if address.nTime > penalty then address.nTime - penalty else 0), source, 0, 0, 0, 1,
                                    false, t.info[id].nRandomPos)
              && t.new_ == s.new_[TargetSlot(h, NewInfo(address, source), source) := id])
  {
    hide SameServices, Inv, RandomOk, NewTableOk, AddrOk, TriedTableOk, RefsOk, Placed, IsTerrible, Hashes.NewBucket, Hashes.BucketPosition, Lost;
    hide Introduced, OthersSame;
    IntroduceStep(h, s, address, source, penalty);
    IntroducedEntry(s, address, source, penalty);
    FreshId(h, s, {}, {});
    var id, b := s.nIdCount, Introduced(s, address, source, penalty);
    InvParts(h, b, {id}, {});
    InvParts(h, s, {}, {});
    var slot := TargetSlot(h, b.info[id], source);
    SameTarget(h, b.info[id], NewInfo(address, source), source);
    TargetRange(h, b.info[id], source);
    if slot in s.new_ {
      SlotHolds(h, s.info, s.new_, slot);
    }
    var insert := MayInsert(b, id, slot, now);
    PlaceKeeps(h, b, id, slot, insert, {id});
    OthersFrom(s.info, b.info, AddedState(h, s, address, source, true, penalty, now, draw).info, id, b.info[id]);
    if insert {
      PlacedEntry(h, b, id, slot, insert, {id});
    }
  }

  lemma IntroducedEntry(s: State, address: Address, source: NetAddr, penalty: int)
    ensures var b, id := Introduced(s, address, source, penalty), s.nIdCount;
            && id in b.info && b.info == s.info[id := b.info[id]] && b.new_ == s.new_
            && b.info[id] == Info(address.(nTime := if address.nTime > penalty then address.nTime - penalty else 0), source, 0, 0, 0, 0,
                                  false, b.info[id].nRandomPos)
  {
  }

  // ---- Good_ ----

  /** A good address: the clocks are set, the failures forgotten, its time is not touched, and it is in the "tried" table. */
  lemma GoodFields(h: Hashes, s: State, service: Service, time: int)
    requires Consistent(h, s) && Known(s, service)
    ensures var id, t := s.addr[service.ip], GoodState(h, s, service, time);
            && id in t.info
            && t.info[id] == s.info[id].(nLastSuccess := time, nLastTry := time, nAttempts := 0, nRefCount := 0, fInTried := true,
                                         nRandomPos := t.info[id].nRandomPos)
            && h.TriedSlot(s.info[id]) in t.tried && t.tried[h.TriedSlot(s.info[id])] == id
            && OthersSame(s.info, t.info, id)
  {
    hide Inv, MadeTried, SameServices, RandomOk, NewTableOk, AddrOk, RefsOk;
    var id := s.addr[service.ip];
    var i := GoodInfo(s.info[id], time);
    StatisticsOnly(h, s, id, i);
    var b := WithInfo(s, id, i);
    RefsAt(h, b, id);
    var t := GoodState(h, s, service, time);
    if !s.info[id].fInTried {
      MakeTriedMoves(h, b, id);
      MakeTriedStep(h, b, id);
      assert id in TriedIds(t.info);
      SameServicesAt(b.info, t.info, id);
    } else {
      SameKept(b.info);
    }
    OthersFrom(s.info, b.info, t.info, id, i);
    RefsAt(h, t, id);
    InvParts(h, t, {}, {});
    SameTriedSlot(h, t.info[id], s.info[id]);
  }

  lemma SameTriedSlot(h: Hashes, i: Info, j: Info)
    requires i.address.service == j.address.service
    ensures h.TriedSlot(i) == h.TriedSlot(j)
  {
  }

  /** Where entries belong: 1024 "new" and 256 "tried" buckets of 64 places, by the service and, for "new" ones, the source. */
  lemma SlotsExactly(h: Hashes, i: Info, source: NetAddr)
    ensures var a := i.address.service;
            && TargetSlot(h, i, source) == (h.new_(a, source) % 1024, h.position(a, true, h.new_(a, source) % 1024) % 64)
            && HomeSlot(h, i) == TargetSlot(h, i, i.source)
            && h.TriedSlot(i) == (h.tried(a) % 256, h.position(a, false, h.tried(a) % 256) % 64)
  {
  }

  /** The entry that a good address takes the "tried" slot of goes back to where its own source leads, with one reference. */
  lemma EvictedFields(h: Hashes, s: State, service: Service, time: int)
    requires Consistent(h, s) && Known(s, service) && !s.info[s.addr[service.ip]].fInTried
    requires h.TriedSlot(s.info[s.addr[service.ip]]) in s.tried
    ensures var e, t := s.tried[h.TriedSlot(s.info[s.addr[service.ip]])], GoodState(h, s, service, time);
            && e in s.info && e in t.info && e != s.addr[service.ip]
            && t.info[e] == s.info[e].(fInTried := false, nRefCount := 1, nRandomPos := t.info[e].nRandomPos)
            && HomeSlot(h, s.info[e]) in t.new_ && t.new_[HomeSlot(h, s.info[e])] == e
  {
    hide Inv, RandomOk, NewTableOk, AddrOk, RefsOk, TriedTableOk, SameServices, Kept, SameRefCounts, Cleared, Without, Hashes.TriedSlot, HomeSlot;
    var id := s.addr[service.ip];
    var i := GoodInfo(s.info[id], time);
    StatisticsOnly(h, s, id, i);
    var b := WithInfo(s, id, i);
    var slot := h.TriedSlot(s.info[id]);
    SameTriedSlot(h, i, s.info[id]);
    VacateForTried(h, b, id);
    var f := Freed(b, id);
    TriedSlotHolds(h, f.info, f.tried, slot);
    var e := f.tried[slot];
    VacateOccupied(h, f, slot, {id});
    var u := Evicted(f, slot);
    var home := HomeSlot(h, f.info[e]);
    InvParts(h, f, {id}, {id});
    EvictStep(h, f, slot, {id}, {id});
    ClearStep(h, u, home, {id} + {e}, {id} + {e});
    ClearKeeps(h, u, home, {id} + {e}, {id} + {e});
    var v := Cleared(h, u, home);
    SameServicesAt(u.info, v.info, e);
    RefCountAt(u, v, home, e);
    NotLost(u, home, e);
    KeptAt(u.info, v.info, Lost(u, home), e);
  }
}
