/** The compound moves of the address manager, built from the primitive steps. */
module AddrMoves {
  import opened AddrState

  /** CAddrMan::ClearNew: the occupant of a "new" slot loses a reference, and goes when that was its last. */
  function Cleared(h: Hashes, s: State, slot: Slot): State
    requires RandomOk(s.info, s.random) && NewTableOk(h, s.info, s.new_)
  {
    if slot !in s.new_ then s else
      var id := s.new_[slot];
      var t := Unreferenced(s, slot);
      UnreferencedRandom(s, slot);
      if t.info[id].nRefCount == 0 then Deleted(t, id) else t
  }

  lemma UnreferencedRandom(s: State, slot: Slot)
    requires RandomOk(s.info, s.random) && slot in s.new_ && s.new_[slot] in s.info
    ensures RandomOk(Unreferenced(s, slot).info, s.random)
  {
  }

  predicate Holds(t: Table, slot: Slot, id: int) {
    slot in t && t[slot] == id
  }

  /** Which entry a cleared slot costs, if any: the one with no other reference. */
  ghost function Lost(s: State, slot: Slot): set<int> {
    set id | id in s.info && slot in s.new_ && s.new_[slot] == id && s.info[id].nRefCount == 1
  }

  /** Entries other than those in out stay, in the same table. */
  ghost predicate Kept(a: map<int, Info>, b: map<int, Info>, out: set<int>) {
    forall id :: id in a && id !in out ==> id in b && a[id].fInTried == b[id].fInTried
  }

  /** Every entry of b was there before, with the same address, source and statistics. */
  ghost predicate SameServices(a: map<int, Info>, b: map<int, Info>) {
    forall id :: id in b ==>
      id in a && b[id] == a[id].(nRefCount := b[id].nRefCount, fInTried := b[id].fInTried, nRandomPos := b[id].nRandomPos)
  }

  lemma ClearStep(h: Hashes, s: State, slot: Slot, loose: set<int>, uncounted: set<int>)
    requires Inv(h, s, loose, uncounted)
    ensures Inv(h, Cleared(h, s, slot), loose, uncounted)
    ensures Cleared(h, s, slot).tried == s.tried && Cleared(h, s, slot).new_ == s.new_ - {slot}
  {
    hide Inv, RandomOk, NewTableOk, OnlyMoved, Deleted;
    if slot in s.new_ {
      InvParts(h, s, loose, uncounted);
      UnreferenceStep(h, s, slot, loose, uncounted);
      var id := s.new_[slot];
      var t := Unreferenced(s, slot);
      if t.info[id].nRefCount == 0 {
        DropLast(h, t, id, loose, uncounted);
      }
    } else {
      assert s.new_ - {slot} == s.new_;
    }
  }

  lemma DropLast(h: Hashes, t: State, id: int, loose: set<int>, uncounted: set<int>)
    requires Inv(h, t, loose + {id}, uncounted) && id !in loose && uncounted <= loose && id in t.info
    ensures Inv(h, Deleted(t, id), loose, uncounted)
    ensures Deleted(t, id).tried == t.tried && Deleted(t, id).new_ == t.new_
    ensures Deleted(t, id).info.Keys == t.info.Keys - {id} && OnlyMoved(t.info - {id}, Deleted(t, id).info)
  {
    DeleteStep(h, t, id, loose + {id}, uncounted);
    assert loose + {id} - {id} == loose;
  }

  lemma InvParts(h: Hashes, s: State, loose: set<int>, uncounted: set<int>)
    requires Inv(h, s, loose, uncounted)
    ensures RandomOk(s.info, s.random) && NewTableOk(h, s.info, s.new_) && AddrOk(s.info, s.addr)
    ensures TriedTableOk(h, s.info, s.tried) && RefsOk(s.info, s.new_, loose)
    ensures loose <= s.info.Keys && uncounted <= loose
    ensures forall id :: id in s.info ==> 0 <= id < s.nIdCount
  {
  }

  /** Entries outside a slot keep their reference counts. */
  ghost predicate SameRefCounts(s: State, t: State, slot: Slot) {
    forall id :: id in s.info && id in t.info && !Holds(s.new_, slot, id) ==> t.info[id].nRefCount == s.info[id].nRefCount
  }

  /** Clearing a slot costs at most the entry in it, and only when it had no other reference. */
  lemma ClearKeeps(h: Hashes, s: State, slot: Slot, loose: set<int>, uncounted: set<int>)
    requires Inv(h, s, loose, uncounted)
    ensures var t := Cleared(h, s, slot);
            && t.info.Keys == s.info.Keys - Lost(s, slot) && Kept(s.info, t.info, Lost(s, slot)) && SameServices(s.info, t.info)
            && SameRefCounts(s, t, slot)
  {
    hide Inv, RandomOk, NewTableOk, Deleted, Kept, SameServices, SameRefCounts, Lost, OnlyMoved;
    if slot in s.new_ {
      InvParts(h, s, loose, uncounted);
      UnreferenceStep(h, s, slot, loose, uncounted);
      var id := s.new_[slot];
      var t := Unreferenced(s, slot);
      if t.info[id].nRefCount == 0 {
        InvParts(h, t, loose + {id}, uncounted);
        DropLast(h, t, id, loose, uncounted);
        DeletedKeeps(s, t, Deleted(t, id), slot, id);
      } else {
        SameKeeps(s, t, slot);
      }
    } else {
      SameKeeps(s, s, slot);
    }
  }

  lemma SameKeeps(s: State, t: State, slot: Slot)
    requires slot in s.new_ ==> s.new_[slot] in s.info && s.info[s.new_[slot]].nRefCount != 1
    requires t.info == s.info || (slot in s.new_ && t.info == Unreferenced(s, slot).info)
    ensures t.info.Keys == s.info.Keys - Lost(s, slot) && Kept(s.info, t.info, Lost(s, slot)) && SameServices(s.info, t.info)
    ensures SameRefCounts(s, t, slot)
  {
    assert Lost(s, slot) == {};
  }

  lemma DeletedKeeps(s: State, t: State, d: State, slot: Slot, id: int)
    requires Holds(s.new_, slot, id) && id in s.info && s.info[id].nRefCount == 1 && t.info == Unreferenced(s, slot).info
    requires d.info.Keys == t.info.Keys - {id} && OnlyMoved(t.info - {id}, d.info)
    ensures d.info.Keys == s.info.Keys - Lost(s, slot) && Kept(s.info, d.info, Lost(s, slot)) && SameServices(s.info, d.info)
    ensures SameRefCounts(s, d, slot)
  {
    assert Lost(s, slot) == {id};
    forall x | x in s.info && x != id
      ensures x in d.info && d.info[x] == s.info[x].(nRandomPos := d.info[x].nRandomPos)
    {
      assert x in t.info - {id};
    }
  }

  // ---- placing an entry in the "new" table: the end of Add_ ----

  function Placed(h: Hashes, s: State, id: int, slot: Slot, insert: bool): State
    requires RandomOk(s.info, s.random) && NewTableOk(h, s.info, s.new_) && id in s.info
  {
    if Holds(s.new_, slot, id) then s
    else if insert then
      var t := Cleared(h, s, slot);
      if id in t.info then Referenced(t, slot, id) else t
    else if s.info[id].nRefCount == 0 then Deleted(s, id)
    else s
  }

  lemma PlaceStep(h: Hashes, s: State, id: int, slot: Slot, insert: bool, loose: set<int>)
    requires Inv(h, s, loose, {}) && id in s.info && loose == (if s.info[id].nRefCount == 0 then {id} else {})
    requires !s.info[id].fInTried && s.info[id].nRefCount < NEW_BUCKETS_PER_ADDRESS
    requires slot.0 < NEW_BUCKET_COUNT && slot.1 == h.BucketPosition(s.info[id], true, slot.0)
    ensures Consistent(h, Placed(h, s, id, slot, insert))
    ensures insert && !Holds(s.new_, slot, id) ==> id in Cleared(h, s, slot).info
  {
    InvParts(h, s, loose, {});
    hide Inv, RandomOk, NewTableOk, Deleted, Cleared, Lost, AddrOk, TriedTableOk, RefsOk, OnlyMoved;
    if Holds(s.new_, slot, id) {
      UnreferenceStep(h, s, slot, loose, {});
    } else if insert {
      PlaceInsert(h, s, id, slot, loose);
    } else if s.info[id].nRefCount == 0 {
      DropLast(h, s, id, {}, {});
    }
  }

  lemma PlaceInsert(h: Hashes, s: State, id: int, slot: Slot, loose: set<int>)
    requires Inv(h, s, loose, {}) && id in s.info && loose <= {id} && !Holds(s.new_, slot, id)
    requires !s.info[id].fInTried && s.info[id].nRefCount < NEW_BUCKETS_PER_ADDRESS
    requires slot.0 < NEW_BUCKET_COUNT && slot.1 == h.BucketPosition(s.info[id], true, slot.0)
    ensures id in Cleared(h, s, slot).info
    ensures Consistent(h, Referenced(Cleared(h, s, slot), slot, id))
  {
    hide Inv, RandomOk, NewTableOk, Cleared, AddrOk, TriedTableOk, RefsOk;
    InvParts(h, s, loose, {});
    ClearStep(h, s, slot, loose, {});
    ClearKeeps(h, s, slot, loose, {});
    var t := Cleared(h, s, slot);
    assert id !in Lost(s, slot);
    ReferenceStep(h, t, slot, id, loose, {});
    assert loose - {id} == {};
    assert {} - {id} == {};
    assert Referenced(t, slot, id).(nNew := t.nNew + 0) == Referenced(t, slot, id);
  }

  /** The entries that placing one costs: at most one, the overwritten one or the rejected newcomer. */
  ghost function Gone(s: State, id: int, slot: Slot, insert: bool): set<int>
    requires id in s.info
  {
    if Holds(s.new_, slot, id) then {} else if insert then Lost(s, slot) else if s.info[id].nRefCount == 0 then {id} else {}
  }

  lemma PlaceKeeps(h: Hashes, s: State, id: int, slot: Slot, insert: bool, loose: set<int>)
    requires Inv(h, s, loose, {}) && id in s.info && loose == (if s.info[id].nRefCount == 0 then {id} else {})
    requires !s.info[id].fInTried && s.info[id].nRefCount < NEW_BUCKETS_PER_ADDRESS
    requires slot.0 < NEW_BUCKET_COUNT && slot.1 == h.BucketPosition(s.info[id], true, slot.0)
    ensures var t := Placed(h, s, id, slot, insert); var gone := Gone(s, id, slot, insert);
            t.info.Keys == s.info.Keys - gone && Kept(s.info, t.info, gone) && SameServices(s.info, t.info)
  {
    hide Inv, RandomOk, NewTableOk, Deleted, Cleared, Kept, SameServices, AddrOk, TriedTableOk, RefsOk, OnlyMoved, Lost;
    InvParts(h, s, loose, {});
    if Holds(s.new_, slot, id) || (!insert && s.info[id].nRefCount != 0) {
      SameKept(s.info);
    } else if insert {
      PlaceInsert(h, s, id, slot, loose);
      ClearKeeps(h, s, slot, loose, {});
      MoreReferences(s.info, Cleared(h, s, slot).info, id, Lost(s, slot));
    } else {
      DropLast(h, s, id, {}, {});
      MovedWithout(s.info, Deleted(s, id).info, id);
    }
  }

  lemma SameKept(a: map<int, Info>)
    ensures Kept(a, a, {}) && SameServices(a, a)
  {
  }

  lemma MoreReferences(a: map<int, Info>, b: map<int, Info>, id: int, out: set<int>)
    requires Kept(a, b, out) && SameServices(a, b) && id in b
    ensures var b' := b[id := b[id].(nRefCount := b[id].nRefCount + 1)]; Kept(a, b', out) && SameServices(a, b')
  {
  }

  lemma MovedWithout(a: map<int, Info>, b: map<int, Info>, id: int)
    requires OnlyMoved(a - {id}, b)
    ensures Kept(a, b, {id}) && SameServices(a, b)
  {
    forall x | x in a && x != id
      ensures x in b && a[x].fInTried == b[x].fInTried
    {
      assert x in a - {id};
    }
    forall x | x in b
      ensures x in a && b[x] == a[x].(nRandomPos := b[x].nRandomPos)
    {
      assert x in a - {id};
    }
  }

  // ---- moving an entry to the "tried" table: MakeTried ----

  function Without(t: Table, id: int): Table {
    map s | s in t && t[s] != id :: t[s]
  }

  /** The loop of MakeTried: the entry leaves every "new" bucket. */
  function Dropped(s: State, id: int): State
    requires id in s.info
  {
    s.(info := s.info[id := s.info[id].(nRefCount := 0)], new_ := Without(s.new_, id))
  }

  lemma DropTables(h: Hashes, info: map<int, Info>, new_: Table, tried: Table, id: int, i: Info)
    requires NewTableOk(h, info, new_) && TriedTableOk(h, info, tried) && RefsOk(info, new_, {})
    requires id in info && !info[id].fInTried && i == info[id].(nRefCount := 0)
    ensures var info' := info[id := i];
            NewTableOk(h, info', Without(new_, id)) && TriedTableOk(h, info', tried) && RefsOk(info', Without(new_, id), {id})
  {
    var info' := info[id := i];
    var new' := Without(new_, id);
    assert SlotsOf(new', id) == {};
    forall x | x != id
      ensures SlotsOf(new', x) == SlotsOf(new_, x)
    {
    }
    forall x | x in info' && info'[x].fInTried
      ensures h.TriedSlot(info'[x]) in tried && tried[h.TriedSlot(info'[x])] == x
    {
      assert h.TriedSlot(info'[x]) == h.TriedSlot(info[x]);
    }
  }

  lemma DropStep(h: Hashes, s: State, id: int)
    requires Consistent(h, s) && id in s.info && !s.info[id].fInTried
    ensures Inv(h, Dropped(s, id), {id}, {})
  {
    hide RandomOk, AddrOk, NewTableOk, TriedTableOk, RefsOk, TriedIds, NewIds, Without;
    var i := s.info[id].(nRefCount := 0);
    UpdateInfo(s.info, s.random, s.addr, id, i);
    DropTables(h, s.info, s.new_, s.tried, id, i);
    IdsKept(s.info, id, i);
  }

  /** The slot an evicted entry goes back to. */
  function HomeSlot(h: Hashes, i: Info): Slot {
    (h.NewBucket(i, i.source), h.BucketPosition(i, true, h.NewBucket(i, i.source)))
  }

  /** Making room in a "tried" slot: its occupant goes back to the "new" table, displacing what is there. */
  function Vacated(h: Hashes, s: State, slot: Slot): State
    requires RandomOk(s.info, s.random) && NewTableOk(h, s.info, s.new_) && TriedTableOk(h, s.info, s.tried)
  {
    if slot !in s.tried then s else
      var id := s.tried[slot];
      var t := Evicted(s, slot);
      EvictedParts(h, s, slot);
      var home := HomeSlot(h, s.info[id]);
      var u := Cleared(h, t, home);
      if id in u.info then Referenced(u, home, id).(nNew := u.nNew + 1) else u
  }

  /** Who is in a "tried" slot, and who loses its last place when that entry goes home. */
  ghost function Occupant(s: State, slot: Slot): set<int> {
    set e | e in s.info && slot in s.tried && s.tried[slot] == e
  }

  ghost function Displaced(h: Hashes, s: State, slot: Slot): set<int> {
    if slot in s.tried && s.tried[slot] in s.info
    then Lost(Evicted(s, slot), HomeSlot(h, s.info[s.tried[slot]]))
    else {}
  }

  lemma EvictedParts(h: Hashes, s: State, slot: Slot)
    requires RandomOk(s.info, s.random) && NewTableOk(h, s.info, s.new_) && TriedTableOk(h, s.info, s.tried) && slot in s.tried
    ensures s.tried[slot] in s.info && RandomOk(Evicted(s, slot).info, s.random) && NewTableOk(h, Evicted(s, slot).info, s.new_)
  {
  }

  lemma VacateStep(h: Hashes, s: State, slot: Slot, loose: set<int>)
    requires Inv(h, s, loose, loose) && (slot in s.tried ==> s.tried[slot] !in loose)
    ensures Inv(h, Vacated(h, s, slot), loose, loose) && Vacated(h, s, slot).tried == s.tried - {slot}
    ensures Vacated(h, s, slot).info.Keys == s.info.Keys - Displaced(h, s, slot)
    ensures Kept(s.info, Vacated(h, s, slot).info, Displaced(h, s, slot) + Occupant(s, slot))
    ensures forall e :: e in Occupant(s, slot) ==> e in Vacated(h, s, slot).info && !Vacated(h, s, slot).info[e].fInTried
    ensures Displaced(h, s, slot) !! loose + Occupant(s, slot) && SameServices(s.info, Vacated(h, s, slot).info)
  {
    hide Inv, RandomOk, NewTableOk, Cleared, AddrOk, TriedTableOk, RefsOk, Kept, SameServices, Lost, Occupant;
    InvParts(h, s, loose, loose);
    if slot in s.tried {
      VacateOccupied(h, s, slot, loose);
      var t, id := Evicted(s, slot), s.tried[slot];
      var home := HomeSlot(h, s.info[id]);
      VacatedKeeps(s, t, Cleared(h, t, home), slot, Lost(t, home), home, loose);
    } else {
      assert s.tried - {slot} == s.tried;
      NoOccupant(s, slot);
      assert Displaced(h, s, slot) + Occupant(s, slot) == {};
    }
  }

  lemma NoOccupant(s: State, slot: Slot)
    requires slot !in s.tried
    ensures Occupant(s, slot) == {} && Kept(s.info, s.info, {}) && SameServices(s.info, s.info)
  {
  }

  lemma VacateOccupied(h: Hashes, s: State, slot: Slot, loose: set<int>)
    requires Inv(h, s, loose, loose) && slot in s.tried && s.tried[slot] !in loose
    ensures s.tried[slot] in s.info
    ensures var id, t := s.tried[slot], Evicted(s, slot); var home := HomeSlot(h, s.info[id]);
            && RandomOk(t.info, t.random) && NewTableOk(h, t.info, t.new_) && !Holds(t.new_, home, id)
            && var u := Cleared(h, t, home);
               && id in u.info && u.tried == s.tried - {slot}
               && Inv(h, Referenced(u, home, id).(nNew := u.nNew + 1), loose, loose)
               && u.info.Keys == t.info.Keys - Lost(t, home) && Kept(t.info, u.info, Lost(t, home)) && SameServices(t.info, u.info)
               && Lost(t, home) !! loose + {id}
  {
    hide Inv, RandomOk, NewTableOk, Cleared, AddrOk, TriedTableOk, RefsOk, Kept, SameServices, SameRefCounts;
    var id := s.tried[slot];
    EvictStep(h, s, slot, loose, loose);
    var t, home := Evicted(s, slot), HomeSlot(h, s.info[id]);
    InvParts(h, t, loose + {id}, loose + {id});
    ClearStep(h, t, home, loose + {id}, loose + {id});
    ClearKeeps(h, t, home, loose + {id}, loose + {id});
    LostNotLoose(h, t, home, loose + {id}, loose + {id});
    if home in t.new_ {
      UnreferenceStep(h, t, home, loose + {id}, loose + {id});
    }
    var u := Cleared(h, t, home);
    SameServicesAt(t.info, u.info, id);
    RefCountAt(t, u, home, id);
    KeptAt(t.info, u.info, Lost(t, home), id);
    ReferenceStep(h, u, home, id, loose + {id}, loose + {id});
    assert loose + {id} - {id} == loose;
  }

  lemma SameServicesAt(a: map<int, Info>, b: map<int, Info>, id: int)
    requires SameServices(a, b) && id in b
    ensures id in a && b[id] == a[id].(nRefCount := b[id].nRefCount, fInTried := b[id].fInTried, nRandomPos := b[id].nRandomPos)
  {
  }

  lemma RefCountAt(s: State, t: State, slot: Slot, id: int)
    requires SameRefCounts(s, t, slot) && id in s.info && id in t.info && !Holds(s.new_, slot, id)
    ensures t.info[id].nRefCount == s.info[id].nRefCount
  {
  }

  lemma KeptAt(a: map<int, Info>, b: map<int, Info>, out: set<int>, id: int)
    requires Kept(a, b, out) && id in a && id !in out
    ensures id in b && a[id].fInTried == b[id].fInTried
  {
  }

  lemma VacatedKeeps(s: State, t: State, u: State, slot: Slot, lost: set<int>, home: Slot, loose: set<int>)
    requires slot in s.tried && s.tried[slot] in s.info && t == Evicted(s, slot) && s.tried[slot] in u.info && lost !! loose + {s.tried[slot]}
    requires u.info.Keys == t.info.Keys - lost && Kept(t.info, u.info, lost) && SameServices(t.info, u.info)
    ensures var id := s.tried[slot]; var v := Referenced(u, home, id);
            && Occupant(s, slot) == {id} && v.info.Keys == s.info.Keys - lost && SameServices(s.info, v.info)
            && Kept(s.info, v.info, lost + Occupant(s, slot)) && !v.info[id].fInTried && lost !! loose + Occupant(s, slot)
  {
    var id := s.tried[slot];
    var v := Referenced(u, home, id);
    assert Occupant(s, slot) == {id};
    forall x | x in s.info && x !in lost + {id}
      ensures x in v.info && v.info[x].fInTried == s.info[x].fInTried
    {
      assert x in t.info && t.info[x] == s.info[x];
    }
    assert id in t.info && !t.info[id].fInTried;
  }

  lemma LostNotLoose(h: Hashes, s: State, slot: Slot, loose: set<int>, uncounted: set<int>)
    requires Inv(h, s, loose, uncounted)
    ensures Lost(s, slot) !! loose
  {
    hide Inv;
    if slot in s.new_ {
      UnreferenceStep(h, s, slot, loose, uncounted);
    }
  }

  /** The entry out of every "new" bucket and out of nNew: where MakeTried looks for a "tried" slot. */
  function Freed(s: State, id: int): State
    requires id in s.info
  {
    Dropped(s, id).(nNew := s.nNew - 1)
  }

  lemma FreeStep(h: Hashes, s: State, id: int)
    requires Consistent(h, s) && id in s.info && !s.info[id].fInTried
    ensures Inv(h, Freed(s, id), {id}, {id})
  {
    hide Inv, Without;
    DropStep(h, s, id);
    UncountStep(h, Dropped(s, id), id, {id}, {});
    assert {} + {id} == {id};
  }

  /** CAddrMan::MakeTried */
  function MadeTried(h: Hashes, s: State, id: int): State
    requires Consistent(h, s) && id in s.info && !s.info[id].fInTried
  {
    FreeStep(h, s, id);
    var slot := h.TriedSlot(s.info[id]);
    var t := Vacated(h, Freed(s, id), slot);
    if id in t.info then Tried(h, t, id) else t
  }

  lemma MakeTriedStep(h: Hashes, s: State, id: int)
    requires Consistent(h, s) && id in s.info && !s.info[id].fInTried
    ensures Consistent(h, MadeTried(h, s, id))
  {
    hide Inv, RandomOk, NewTableOk, AddrOk, TriedTableOk, RefsOk, Vacated, Freed, Occupant;
    VacateForTried(h, s, id);
    TryStep(h, Vacated(h, Freed(s, id), h.TriedSlot(s.info[id])), id, {id}, {id});
    assert {id} - {id} == {};
  }

  lemma VacateForTried(h: Hashes, s: State, id: int)
    requires Consistent(h, s) && id in s.info && !s.info[id].fInTried
    ensures var f, slot := Freed(s, id), h.TriedSlot(s.info[id]);
            && Inv(h, f, {id}, {id}) && RandomOk(f.info, f.random) && NewTableOk(h, f.info, f.new_) && TriedTableOk(h, f.info, f.tried)
            && Inv(h, Vacated(h, f, slot), {id}, {id}) && slot !in Vacated(h, f, slot).tried
            && id in Vacated(h, f, slot).info && Vacated(h, f, slot).info[id].address.service == s.info[id].address.service
            && Vacated(h, f, slot).info.Keys == s.info.Keys - Displaced(h, f, slot)
            && Kept(f.info, Vacated(h, f, slot).info, Displaced(h, f, slot) + Occupant(s, slot))
            && (forall e :: e in Occupant(s, slot) ==> e in Vacated(h, f, slot).info && !Vacated(h, f, slot).info[e].fInTried)
            && Displaced(h, f, slot) !! {id} + Occupant(s, slot) && SameServices(s.info, Vacated(h, f, slot).info)
  {
    hide Inv, RandomOk, NewTableOk, AddrOk, TriedTableOk, RefsOk, Vacated, Displaced;
    FreeStep(h, s, id);
    var f, slot := Freed(s, id), h.TriedSlot(s.info[id]);
    InvParts(h, f, {id}, {id});
    if slot in f.tried {
      TriedSlotHolds(h, f.info, f.tried, slot);
    }
    assert Occupant(f, slot) == Occupant(s, slot);
    assert f.info.Keys == s.info.Keys;
    VacateStep(h, f, slot, {id});
  }

  /** The "tried" set gains the entry and loses the occupant of its slot, which goes back to the "new" set;
      at most the entry displaced by that one disappears. */
  lemma MakeTriedMoves(h: Hashes, s: State, id: int)
    requires Consistent(h, s) && id in s.info && !s.info[id].fInTried
    ensures var slot := h.TriedSlot(s.info[id]); var t := MadeTried(h, s, id); var lost := Displaced(h, Freed(s, id), slot);
            && TriedIds(t.info) == TriedIds(s.info) - Occupant(s, slot) + {id}
            && NewIds(t.info) == NewIds(s.info) - {id} - lost + Occupant(s, slot)
            && lost <= NewIds(s.info) && |lost| <= 1 && |Occupant(s, slot)| <= 1
            && SameServices(s.info, t.info)
  {
    hide Inv, RandomOk, NewTableOk, AddrOk, TriedTableOk, RefsOk, Vacated, Displaced, Kept, NewIds, TriedIds, Occupant, Without;
    VacateForTried(h, s, id);
    var f, slot := Freed(s, id), h.TriedSlot(s.info[id]);
    DisplacedOne(h, f, slot, {id}, {id});
    OccupantFreed(s, id, slot);
    TriedOccupant(h, s, slot);
    MovedIds(s.info, f.info, Vacated(h, f, slot).info, id, Occupant(s, slot), Displaced(h, f, slot));
  }

  lemma MovedIds(a: map<int, Info>, f: map<int, Info>, v: map<int, Info>, id: int, o: set<int>, lost: set<int>)
    requires id in a && !a[id].fInTried && f == a[id := a[id].(nRefCount := 0)] && id in v
    requires v.Keys == a.Keys - lost && Kept(f, v, lost + o) && lost !! {id} + o && o <= TriedIds(a)
    requires lost <= NewIds(f) + o
    requires forall e :: e in o ==> e in v && !v[e].fInTried
    ensures var t := v[id := v[id].(fInTried := true)];
            TriedIds(t) == TriedIds(a) - o + {id} && NewIds(t) == NewIds(a) - {id} - lost + o && lost <= NewIds(a)
  {
    var t := v[id := v[id].(fInTried := true)];
    forall x
      ensures x in TriedIds(t) <==> x in TriedIds(a) - o + {id}
      ensures x in NewIds(t) <==> x in NewIds(a) - {id} - lost + o
    {
      if x in v && x != id && x !in o {
        assert x in f && x !in lost;
      }
    }
  }

  lemma OccupantFreed(s: State, id: int, slot: Slot)
    requires id in s.info
    ensures Occupant(Freed(s, id), slot) == Occupant(s, slot)
  {
  }

  lemma DisplacedOne(h: Hashes, s: State, slot: Slot, loose: set<int>, uncounted: set<int>)
    requires Inv(h, s, loose, uncounted)
    ensures |Displaced(h, s, slot)| <= 1 && Displaced(h, s, slot) <= NewIds(s.info) + Occupant(s, slot)
  {
    var lost := Displaced(h, s, slot);
    if lost != {} {
      var id := s.tried[slot];
      var home := HomeSlot(h, s.info[id]);
      assert lost <= {s.new_[home]};
      assert lost == {s.new_[home]};
    }
  }

  lemma TriedOccupant(h: Hashes, s: State, slot: Slot)
    requires Consistent(h, s)
    ensures |Occupant(s, slot)| <= 1 && Occupant(s, slot) <= TriedIds(s.info)
  {
    var o := Occupant(s, slot);
    if o != {} {
      assert o == {s.tried[slot]};
    }
  }
}
