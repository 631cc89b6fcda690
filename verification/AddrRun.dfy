/** What the operations of the address manager do to the sets of addresses, and every run of them. */
module AddrRun {
  import opened AddrState
  import opened AddrMoves
  import opened AddrMan

  lemma KeptTried(a: map<int, Info>, b: map<int, Info>, gone: set<int>)
    requires Kept(a, b, gone) && b.Keys == a.Keys - gone && gone !! TriedIds(a)
    ensures TriedIds(b) == TriedIds(a)
  {
    forall id
      ensures id in TriedIds(b) <==> id in TriedIds(a)
    {
      if id in b {
        assert id in a && id !in gone;
      }
    }
  }

  lemma LostIsNew(h: Hashes, s: State, slot: Slot, loose: set<int>)
    requires Inv(h, s, loose, {})
    ensures Lost(s, slot) !! TriedIds(s.info) && |Lost(s, slot)| <= 1
  {
    if slot in s.new_ {
      SlotHolds(h, s.info, s.new_, slot);
      assert Lost(s, slot) <= {s.new_[slot]};
      assert Lost(s, slot) == {} || Lost(s, slot) == {s.new_[slot]};
    } else {
      assert Lost(s, slot) == {};
    }
  }

  /** What settling an entry does to the sets of ids. */
  lemma SettleMoves(h: Hashes, s: State, id: int, source: NetAddr, now: int, loose: set<int>)
    requires Inv(h, s, loose, {}) && id in s.info && loose == (if s.info[id].nRefCount == 0 then {id} else {})
    requires !s.info[id].fInTried && s.info[id].nRefCount < NEW_BUCKETS_PER_ADDRESS
    ensures RandomOk(s.info, s.random) && NewTableOk(h, s.info, s.new_)
    ensures var slot := TargetSlot(h, s.info[id], source);
            && (slot in s.new_ ==> s.new_[slot] in s.info)
            && var gone := Gone(s, id, slot, MayInsert(s, id, slot, now)); var t := Settled(h, s, id, source, now);
               t.info.Keys == s.info.Keys - gone && TriedIds(t.info) == TriedIds(s.info) && SameServices(s.info, t.info)
  {
    hide Inv, RandomOk, NewTableOk, Placed, Kept, SameServices, Lost, TriedIds, AddrOk, TriedTableOk, RefsOk;
    InvParts(h, s, loose, {});
    var slot := TargetSlot(h, s.info[id], source);
    if slot in s.new_ {
      SlotHolds(h, s.info, s.new_, slot);
    }
    var insert := MayInsert(s, id, slot, now);
    PlaceKeeps(h, s, id, slot, insert, loose);
    LostIsNew(h, s, slot, loose);
    NotTried(s.info, id);
    KeptTried(s.info, Settled(h, s, id, source, now).info, Gone(s, id, slot, insert));
  }

  lemma NotTried(info: map<int, Info>, id: int)
    requires id in info && !info[id].fInTried
    ensures {id} !! TriedIds(info)
  {
  }

  /** Hearing of a known address again never loses it, leaves the "tried" set alone, and costs at most the entry in its
      target slot, when that one had no other reference. */
  lemma AddKnownMoves(h: Hashes, s: State, address: Address, source: NetAddr, penalty: int, now: int, draw: nat)
    requires Consistent(h, s) && address.service.ip in s.addr
    ensures var id, t := s.addr[address.service.ip], AddedState(h, s, address, source, true, penalty, now, draw);
            && id in s.info && id in t.info && TriedIds(t.info) == TriedIds(s.info)
            && t.info.Keys <= s.info.Keys && s.info.Keys - t.info.Keys <= Lost(s, TargetSlot(h, s.info[id], source)) - {id}
  {
    hide Inv, RandomOk, NewTableOk, Settled, SameServices;
    HeardStep(h, s, address.service.ip, address, penalty, now);
    var id := s.addr[address.service.ip];
    var i := Heard(s.info[id], address, penalty, now);
    var b := WithInfo(s, id, i);
    IdsKept(s.info, id, i);
    if MayRepeat(i, address, draw) {
      RefsAt(h, b, id);
      SettleMoves(h, b, id, source, now, {});
    }
  }

  /** An unknown address is entered exactly when its slot is free or its occupant terrible or referenced elsewhere;
      it costs at most that occupant, when this was its only reference. */
  lemma AddUnknownMoves(h: Hashes, s: State, address: Address, source: NetAddr, penalty: int, now: int, draw: nat)
    requires Consistent(h, s) && address.service.ip !in s.addr
    ensures var slot := TargetSlot(h, NewInfo(address, source), source);
            && (slot in s.new_ ==> s.new_[slot] in s.info)
            && var insert := slot !in s.new_ || IsTerrible(s.info[s.new_[slot]], now) || s.info[s.new_[slot]].nRefCount > 1;
               var t := AddedState(h, s, address, source, true, penalty, now, draw);
               && TriedIds(t.info) == TriedIds(s.info)
               && t.info.Keys == if insert then s.info.Keys - Lost(s, slot) + {s.nIdCount} else s.info.Keys
  {
    hide Inv, RandomOk, NewTableOk, Settled, SameServices, TriedIds;
    var id, slot := s.nIdCount, TargetSlot(h, NewInfo(address, source), source);
    IntroduceStep(h, s, address, source, penalty);
    FreshId(h, s, {}, {});
    var b := Introduced(s, address, source, penalty);
    SettleMoves(h, b, id, source, now, {id});
    IntroducedIds(s, address, source, penalty);
    if slot in s.new_ {
      InvParts(h, s, {}, {});
      SlotHolds(h, s.info, s.new_, slot);
    }
    assert Lost(b, slot) == Lost(s, slot);
  }

  lemma IntroducedIds(s: State, address: Address, source: NetAddr, penalty: int)
    requires s.nIdCount !in s.info
    ensures TriedIds(Introduced(s, address, source, penalty).info) == TriedIds(s.info)
  {
  }

  /** A good address ends up in the "tried" set; what was in its slot goes back to the "new" set, and at most the one
      entry that this displaces is lost. */
  lemma GoodMoves(h: Hashes, s: State, service: Service, time: int)
    requires Consistent(h, s) && Known(s, service)
    ensures var id := s.addr[service.ip]; var t := GoodState(h, s, service, time);
            var slot := h.TriedSlot(s.info[id]);
            if s.info[id].fInTried then TriedIds(t.info) == TriedIds(s.info) && NewIds(t.info) == NewIds(s.info)
            else
              var lost := NewIds(s.info) - {id} - NewIds(t.info);
              && TriedIds(t.info) == TriedIds(s.info) - Occupant(s, slot) + {id} && |Occupant(s, slot)| <= 1
              && NewIds(t.info) == NewIds(s.info) - {id} - lost + Occupant(s, slot) && |lost| <= 1
  {
    hide Inv, MadeTried, Displaced, SameServices, TriedIds, NewIds;
    var id := s.addr[service.ip];
    var i := GoodInfo(s.info[id], time);
    StatisticsOnly(h, s, id, i);
    IdsKept(s.info, id, i);
    if !s.info[id].fInTried {
      var b, slot := WithInfo(s, id, i), h.TriedSlot(s.info[id]);
      MakeTriedMoves(h, b, id);
      assert Occupant(b, slot) == Occupant(s, slot);
      TriedOccupant(h, s, slot);
      LostSet(NewIds(s.info), TriedIds(s.info), id, Displaced(h, Freed(b, id), slot), Occupant(s, slot));
      NewAndTried(s.info);
    }
  }

  lemma NewAndTried(info: map<int, Info>)
    ensures NewIds(info) !! TriedIds(info)
  {
  }

  lemma LostSet(new_: set<int>, tried: set<int>, id: int, lost: set<int>, o: set<int>)
    requires lost <= new_ && |lost| <= 1 && o <= tried
    ensures new_ !! tried ==> var after := new_ - {id} - lost + o;
              new_ - {id} - after == lost - {id} && |lost - {id}| <= 1 && after == new_ - {id} - (lost - {id}) + o
  {
    if id in lost {
      assert |lost - {id}| == |lost| - 1;
    } else {
      assert lost - {id} == lost;
    }
  }

  // ---- the repository's own check ----

  /** The clock fields that Check_ looks at. */
  ghost predicate Timed(info: map<int, Info>) {
    forall id :: id in info ==> info[id].nLastTry >= 0 && info[id].nLastSuccess >= 0 && (info[id].fInTried ==> info[id].nLastSuccess != 0)
  }

  /** Check_ on each entry: error codes -1 to -6, -8 and -14. */
  ghost predicate EntryPasses(s: State, id: int, i: Info) {
    && (if i.fInTried then i.nLastSuccess != 0 && i.nRefCount == 0 else 0 < i.nRefCount <= NEW_BUCKETS_PER_ADDRESS)
    && i.address.service.ip in s.addr && s.addr[i.address.service.ip] == id
    && 0 <= i.nRandomPos < |s.random| && s.random[i.nRandomPos] == id
    && i.nLastTry >= 0 && i.nLastSuccess >= 0
  }

  /** Check_ on each occupied slot: -11, -12 and -17 to -19. */
  ghost predicate SlotsPass(h: Hashes, s: State) {
    && (forall t :: t in s.tried ==> s.tried[t] in s.info && s.info[s.tried[t]].fInTried && t == h.TriedSlot(s.info[s.tried[t]]))
    && (forall t :: t in s.new_ ==>
          s.new_[t] in s.info && !s.info[s.new_[t]].fInTried && t.1 == h.BucketPosition(s.info[s.new_[t]], true, t.0))
  }

  /** Check_ returns zero: none of its error codes applies. */
  ghost predicate CheckPasses(h: Hashes, s: State) {
    && |s.random| == s.nTried + s.nNew                                                                        // -7
    && (forall id :: id in s.info ==> EntryPasses(s, id, s.info[id]))
    && s.nTried == |TriedIds(s.info)| && s.nNew == |NewIds(s.info)|                                           // -9, -10
    && SlotsPass(h, s)
    && (forall id :: id in s.info && s.info[id].fInTried ==> |SlotsOf(s.tried, id)| == 1)                     // -13
    && (forall id :: id in s.info && !s.info[id].fInTried ==> |SlotsOf(s.new_, id)| == s.info[id].nRefCount)  // -12, -15
  }

  lemma {:induction false} PermutationSize(info: map<int, Info>, random: seq<int>)
    requires RandomOk(info, random)
    ensures |random| == |info|
    decreases |random|
  {
    if random == [] {
      assert info.Keys == {} by {
        assert forall id :: id !in info;
      }
    } else {
      var id := random[|random| - 1];
      RemoveRandom(info, random, id);
      PermutationSize(info - {id}, random[..|random| - 1]);
      assert (info - {id}).Keys == info.Keys - {id};
    }
  }

  lemma TriedOnce(h: Hashes, info: map<int, Info>, tried: Table, id: int)
    requires TriedTableOk(h, info, tried) && id in info && info[id].fInTried
    ensures SlotsOf(tried, id) == {h.TriedSlot(info[id])}
  {
  }

  lemma Counted(info: map<int, Info>)
    ensures |info| == |TriedIds(info)| + |NewIds(info)|
  {
    assert info.Keys == TriedIds(info) + NewIds(info);
  }

  /** A consistent table with sane clocks passes the repository's own check. */
  lemma ConsistentPasses(h: Hashes, s: State)
    requires Consistent(h, s) && Timed(s.info)
    ensures CheckPasses(h, s)
  {
    PermutationSize(s.info, s.random);
    Counted(s.info);
    assert NewIds(s.info) - {} == NewIds(s.info);
    forall id | id in s.info && s.info[id].fInTried
      ensures |SlotsOf(s.tried, id)| == 1
    {
      TriedOnce(h, s.info, s.tried, id);
    }
  }

  /** Good_ keeps the clocks sane exactly when it is given a positive time, or an address it does not know. */
  lemma GoodTimed(h: Hashes, s: State, service: Service, time: int)
    requires Consistent(h, s) && Timed(s.info)
    ensures Timed(GoodState(h, s, service, time).info) <==> (Known(s, service) ==> time > 0)
  {
    if Known(s, service) {
      hide Inv, MadeTried, Occupant, NewIds;
      var id := s.addr[service.ip];
      var i := GoodInfo(s.info[id], time);
      StatisticsOnly(h, s, id, i);
      if !s.info[id].fInTried {
        var b := WithInfo(s, id, i);
        MakeTriedMoves(h, b, id);
        MovedTimed(b.info, MadeTried(h, b, id).info, id, time);
      }
    }
  }

  lemma MovedTimed(b: map<int, Info>, t: map<int, Info>, id: int, time: int)
    requires SameServices(b, t) && id in TriedIds(t) && TriedIds(t) <= TriedIds(b) + {id}
    requires id in b && b[id].nLastTry == time && b[id].nLastSuccess == time && Timed(b - {id})
    ensures Timed(t) <==> time > 0
  {
    forall x | x in t && x != id
      ensures t[x].nLastTry >= 0 && t[x].nLastSuccess >= 0 && (t[x].fInTried ==> t[x].nLastSuccess != 0)
    {
      assert x in b - {id};
      assert t[x].fInTried ==> x in TriedIds(t);
    }
    assert t[id].nLastSuccess == time && t[id].fInTried;
  }

  /** Add_ always keeps the clocks sane. */
  lemma AddTimed(h: Hashes, s: State, address: Address, source: NetAddr, routable: bool, penalty: int, now: int, draw: nat)
    requires Consistent(h, s) && Timed(s.info)
    ensures Timed(AddedState(h, s, address, source, routable, penalty, now, draw).info)
  {
    hide Inv, RandomOk, NewTableOk, Settled;
    if routable {
      var ip := address.service.ip;
      if ip in s.addr {
        HeardStep(h, s, ip, address, penalty, now);
        var id := s.addr[ip];
        var b := WithInfo(s, id, Heard(s.info[id], address, penalty, now));
        assert Timed(b.info);
        if MayRepeat(b.info[id], address, draw) {
          RefsAt(h, b, id);
          SettleMoves(h, b, id, source, now, {});
          SettledTimed(b.info, Settled(h, b, id, source, now).info);
        }
      } else {
        IntroduceStep(h, s, address, source, penalty);
        var b := Introduced(s, address, source, penalty);
        assert Timed(b.info);
        SettleMoves(h, b, s.nIdCount, source, now, {s.nIdCount});
        SettledTimed(b.info, Settled(h, b, s.nIdCount, source, now).info);
      }
    }
  }

  lemma SettledTimed(b: map<int, Info>, t: map<int, Info>)
    requires Timed(b) && SameServices(b, t) && TriedIds(t) == TriedIds(b)
    ensures Timed(t)
  {
    forall x | x in t
      ensures t[x].nLastTry >= 0 && t[x].nLastSuccess >= 0 && (t[x].fInTried ==> t[x].nLastSuccess != 0)
    {
      assert x in b;
      assert t[x].fInTried ==> x in TriedIds(t);
    }
  }

  // ---- runs ----

  datatype Op =
    | Add(address: Address, source: NetAddr, routable: bool, penalty: int, now: int, draw: nat)
    | Good(service: Service, time: int, start: nat)
    | Attempt(service: Service, time: int)
    | Connected(service: Service, time: int)
    | GetAddr(draws: nat -> nat, now: int)

  /** The clock is past zero when addresses are tried. */
  predicate Clocked(op: Op) {
    match op
    case Good(_, time, _) => time > 0
    case Attempt(_, time) => time >= 0
    case _ => true
  }

  method Apply(m: CAddrMan, op: Op)
    requires m.Valid()
    modifies m, m.vvNew, m.vvTried
    ensures m.Valid()
    ensures old(Timed(m.mapInfo)) && Clocked(op) ==> Timed(m.mapInfo)
  {
    hide Inv, TableOf, MadeTried, Settled, OnlyMoved;
    match op {
      case Add(address, source, routable, penalty, now, draw) =>
        if Timed(m.mapInfo) {
          AddTimed(m.h, m.St(), address, source, routable, penalty, now, draw);
        }
        var _ := m.Add(address, source, routable, penalty, now, draw);
      case Good(service, time, start) =>
        if Timed(m.mapInfo) {
          GoodTimed(m.h, m.St(), service, time);
        }
        m.Good(service, time, start % NEW_BUCKET_COUNT);
      case Attempt(service, time) => m.Attempt(service, time);
      case Connected(service, time) => m.Connected(service, time);
      case GetAddr(draws, now) =>
        var _, _ := m.GetAddr(draws, now);
        MovedKeepsTimed(old(m.mapInfo), m.mapInfo);
    }
  }

  lemma MovedKeepsTimed(a: map<int, Info>, b: map<int, Info>)
    requires OnlyMoved(a, b)
    ensures Timed(a) ==> Timed(b)
  {
    if Timed(a) {
      forall x | x in b
        ensures b[x].nLastTry >= 0 && b[x].nLastSuccess >= 0 && (b[x].fInTried ==> b[x].nLastSuccess != 0)
      {
        assert x in a;
      }
    }
  }

  /** Every run from an empty table keeps it consistent, so that the repository's own check never complains. */
  method Run(h: Hashes, ops: seq<Op>) returns (m: CAddrMan)
    ensures m.Valid()
    ensures (forall i :: 0 <= i < |ops| ==> Clocked(ops[i])) ==> CheckPasses(h, m.St())
  {
    hide Inv, TableOf, CheckPasses;
    m := new CAddrMan(h);
    for n := 0 to |ops|
      invariant m.Valid() && m.h == h && fresh(m) && fresh(m.vvNew) && fresh(m.vvTried)
      invariant (forall i :: 0 <= i < n ==> Clocked(ops[i])) ==> Timed(m.mapInfo)
    {
      Apply(m, ops[n]);
    }
    if Timed(m.mapInfo) {
      ConsistentPasses(h, m.St());
    }
  }

  // ---- a newcomer that is reported and rejected ----

  /** An address enters the empty tables. */
  lemma FirstAdded(h: Hashes, a: Address, source: NetAddr, now: int)
    ensures Consistent(h, EMPTY)
    ensures var t, slot := AddedState(h, EMPTY, a, source, true, 0, now, 0), TargetSlot(h, NewInfo(a, source), source);
            && t.new_ == map[slot := 0] && t.addr == map[a.service.ip := 0] && 0 in t.info
            && t.info[0] == NewInfo(a, source).(nRandomPos := 0, nRefCount := 1, address := a.(nTime := Max(0, a.nTime)))
  {
    hide Inv;
    EmptyConsistent(h);
    IntroduceStep(h, EMPTY, a, source, 0);
    var b := Introduced(EMPTY, a, source, 0);
    InvParts(h, b, {0}, {});
    assert b.info == map[0 := NewInfo(a, source).(nRandomPos := 0, address := a.(nTime := Max(0, a.nTime)))];
    assert Settled(h, b, 0, source, now) == Referenced(b, TargetSlot(h, b.info[0], source), 0);
  }

  /** A newcomer whose slot is held, once, by an entry that is not terrible is gone again at once. */
  lemma Turned(h: Hashes, s: State, b: Address, source: NetAddr, now: int)
    requires Consistent(h, s) && b.service.ip !in s.addr
    requires var slot := TargetSlot(h, NewInfo(b, source), source);
             slot in s.new_ && s.new_[slot] in s.info && !IsTerrible(s.info[s.new_[slot]], now) && s.info[s.new_[slot]].nRefCount <= 1
    ensures b.service.ip !in AddedState(h, s, b, source, true, 0, now, 0).addr
  {
    hide Inv, Deleted;
    FreshId(h, s, {}, {});
    IntroduceStep(h, s, b, source, 0);
    var t := Introduced(s, b, source, 0);
    InvParts(h, t, {s.nIdCount}, {});
    InvParts(h, s, {}, {});
    assert Settled(h, t, s.nIdCount, source, now) == Deleted(t, s.nIdCount);
    DeletedAddr(t, s.nIdCount);
  }

  lemma DeletedAddr(s: State, id: int)
    requires RandomOk(s.info, s.random) && id in s.info
    ensures s.info[id].address.service.ip !in Deleted(s, id).addr
  {
    RandomAt(s.info, s.random, id);
    SwapRandomOk(s, s.info[id].nRandomPos, |s.random| - 1);
  }

  /** Add_ returns true for the second of two addresses with one slot, and does not know it afterwards. */
  method AddedAndUnknown(h: Hashes, a: Address, b: Address, source: NetAddr, now: int) returns (m: CAddrMan, fNew: bool)
    requires a.service.ip != b.service.ip && 0 < a.nTime && now - HORIZON_DAYS * DAY <= a.nTime <= now
    requires TargetSlot(h, NewInfo(a, source), source) == TargetSlot(h, NewInfo(b, source), source)
    ensures m.Valid() && fNew && b.service.ip !in m.mapAddr
  {
    hide Inv, TableOf, AddedState;
    m := new CAddrMan(h);
    FirstAdded(h, a, source, now);
    var _ := m.Add(a, source, true, 0, now, 0);
    Turned(h, m.St(), b, source, now);
    fNew := m.Add(b, source, true, 0, now, 0);
  }
}
