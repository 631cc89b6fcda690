/** The address manager itself (src/addrman.cpp). Times and random draws are parameters. */
module AddrMan {
  import opened Common
  import opened AddrState
  import opened AddrMoves
  import opened AddrShuffle

  // ---- the bucket tables ----

  /** The occupied slots of a bucket table; -1 marks a free one. */
  ghost function TableOf(a: array2<int>): Table
    reads a
  {
    map b: nat, p: nat | b < a.Length0 && p < a.Length1 && a[b, p] != -1 :: (b, p) := a[b, p]
  }

  lemma TableAt(a: array2<int>, b: nat, p: nat)
    requires b < a.Length0 && p < a.Length1
    ensures a[b, p] == -1 <==> (b, p) !in TableOf(a)
    ensures a[b, p] != -1 ==> TableOf(a)[(b, p)] == a[b, p]
  {
  }

  method SetSlot(a: array2<int>, b: nat, p: nat, id: int)
    requires b < a.Length0 && p < a.Length1
    modifies a
    ensures TableOf(a) == if id == -1 then old(TableOf(a)) - {(b, p)} else old(TableOf(a))[(b, p) := id]
  {
    a[b, p] := id;
    ghost var t, u := TableOf(a), old(TableOf(a));
    forall s: Slot
      ensures s != (b, p) ==> (s in t <==> s in u) && (s in t ==> t[s] == u[s])
    {
      if s.0 < a.Length0 && s.1 < a.Length1 {
        TableAt(a, s.0, s.1);
      }
    }
    TableAt(a, b, p);
  }

  method FillTable(a: array2<int>)
    modifies a
    ensures TableOf(a) == map[]
  {
    for bucket := 0 to a.Length0
      invariant forall b, p :: 0 <= b < bucket && 0 <= p < a.Length1 ==> a[b, p] == -1
    {
      for entry := 0 to a.Length1
        invariant forall b, p :: 0 <= b < bucket && 0 <= p < a.Length1 ==> a[b, p] == -1
        invariant forall p :: 0 <= p < entry ==> a[bucket, p] == -1
      {
        a[bucket, entry] := -1;
      }
    }
  }

  // ---- statistics ----

  const HORIZON_DAYS := 30
  const RETRIES := 3
  const MAX_FAILURES := 10
  const MIN_FAIL_DAYS := 7
  const GETADDR_MAX_PCT := 23
  const GETADDR_MAX := 2500
  const DAY := 24 * 60 * 60

  predicate IsTerrible(i: Info, now: int) {
    if i.nLastTry != 0 && i.nLastTry >= now - 60 then false
    else if i.address.nTime > now + 10 * 60 then true
    else if i.address.nTime == 0 || now - i.address.nTime > HORIZON_DAYS * DAY then true
    else if i.nLastSuccess == 0 && i.nAttempts >= RETRIES then true
    else now - i.nLastSuccess > MIN_FAIL_DAYS * DAY && i.nAttempts >= MAX_FAILURES
  }

  function Max(a: int, b: int): int {
    if a > b then a else b
  }

  /** The statistics of one entry change. */
  function WithInfo(s: State, id: int, i: Info): State {
    s.(info := s.info[id := i])
  }

  ghost predicate StatisticsDiffer(a: Info, b: Info) {
    && b == a.(address := b.address, nLastTry := b.nLastTry, nLastSuccess := b.nLastSuccess, nAttempts := b.nAttempts)
    && b.address.service == a.address.service
  }

  lemma StatisticsKeep(h: Hashes, s: State, id: int, i: Info, loose: set<int>)
    requires Inv(h, s, loose, {}) && id in s.info && StatisticsDiffer(s.info[id], i)
    ensures Inv(h, WithInfo(s, id, i), loose, {})
  {
    hide RandomOk, AddrOk, NewTableOk, TriedTableOk, RefsOk, Inv, SameEntries;
    InvParts(h, s, loose, {});
    UpdateInfo(s.info, s.random, s.addr, id, i);
    SameButOne(s.info, id, i);
    StatisticsStep(h, s, s.info[id := i], s.random, loose, {});
  }

  lemma SameButOne(info: map<int, Info>, id: int, i: Info)
    requires id in info && StatisticsDiffer(info[id], i)
    ensures SameEntries(info, info[id := i])
  {
  }

  lemma StatisticsOnly(h: Hashes, s: State, id: int, i: Info)
    requires Consistent(h, s) && id in s.info && StatisticsDiffer(s.info[id], i)
    ensures Consistent(h, WithInfo(s, id, i))
  {
    StatisticsKeep(h, s, id, i, {});
  }

  // ---- what the operations do to the state ----

  /** The address is known, with this very port. */
  ghost predicate Known(s: State, service: Service) {
    service.ip in s.addr && s.addr[service.ip] in s.info && s.info[s.addr[service.ip]].address.service == service
  }

  function GoodInfo(i: Info, time: int): Info {
    i.(nLastSuccess := time, nLastTry := time, nAttempts := 0)
  }

  /** Good_ */
  ghost function GoodState(h: Hashes, s: State, service: Service, time: int): State
    requires Consistent(h, s)
  {
    if !Known(s, service) then s else
      var id := s.addr[service.ip];
      var t := WithInfo(s, id, GoodInfo(s.info[id], time));
      StatisticsOnly(h, s, id, GoodInfo(s.info[id], time));
      if t.info[id].fInTried then t else MadeTried(h, t, id)
  }

  /** A known address is heard of again: the first half of Add_. */
  function Heard(i: Info, address: Address, penalty: int, now: int): Info {
    var interval := if now - address.nTime < DAY then 60 * 60 else DAY;
    var refresh := address.nTime != 0 && (i.address.nTime == 0 || i.address.nTime < address.nTime - interval - penalty);
    i.(address := i.address.(nTime := if refresh then Max(0, address.nTime - penalty) else i.address.nTime,
                             nServices := i.address.nServices + address.nServices))
  }

  /** Whether Add_ gives a known address, as just heard of, another chance of a reference. */
  predicate MayRepeat(i: Info, address: Address, draw: nat) {
    && address.nTime != 0 && (i.address.nTime == 0 || address.nTime > i.address.nTime)
    && !i.fInTried && i.nRefCount != NEW_BUCKETS_PER_ADDRESS
    && (i.nRefCount > 0 ==> draw % Pow2(i.nRefCount) == 0)
  }

  /** Whether the slot is free or its occupant may be overwritten. */
  predicate MayInsert(s: State, id: int, slot: Slot, now: int)
    requires id in s.info && (slot in s.new_ ==> s.new_[slot] in s.info)
  {
    slot !in s.new_ || IsTerrible(s.info[s.new_[slot]], now) || (s.info[s.new_[slot]].nRefCount > 1 && s.info[id].nRefCount == 0)
  }

  function TargetSlot(h: Hashes, i: Info, source: NetAddr): Slot {
    (h.NewBucket(i, source), h.BucketPosition(i, true, h.NewBucket(i, source)))
  }

  /** The entry tries for its slot: the last part of Add_. */
  function Settled(h: Hashes, s: State, id: int, source: NetAddr, now: int): State
    requires RandomOk(s.info, s.random) && NewTableOk(h, s.info, s.new_) && id in s.info
  {
    var slot := TargetSlot(h, s.info[id], source);
    Placed(h, s, id, slot, MayInsert(s, id, slot, now))
  }

  /** A new entry, created and counted, but in no table yet. */
  function Introduced(s: State, address: Address, source: NetAddr, penalty: int): State {
    var t := Created(s, address, source).(nNew := s.nNew + 1);
    var i := t.info[s.nIdCount];
    WithInfo(t, s.nIdCount, i.(address := i.address.(nTime := Max(0, i.address.nTime - penalty))))
  }

  lemma IntroduceStep(h: Hashes, s: State, address: Address, source: NetAddr, penalty: int)
    requires Consistent(h, s) && address.service.ip !in s.addr
    ensures Inv(h, Introduced(s, address, source, penalty), {s.nIdCount}, {})
    ensures var i := Introduced(s, address, source, penalty).info[s.nIdCount]; !i.fInTried && i.nRefCount == 0
  {
    hide Inv;
    CreateStep(h, s, address, source);
    var t, id := Created(s, address, source).(nNew := s.nNew + 1), s.nIdCount;
    StatisticsKeep(h, t, id, t.info[id].(address := t.info[id].address.(nTime := Max(0, t.info[id].address.nTime - penalty))), {id});
  }

  lemma HeardStep(h: Hashes, s: State, ip: NetAddr, address: Address, penalty: int, now: int)
    requires Consistent(h, s) && ip in s.addr
    ensures s.addr[ip] in s.info && Consistent(h, WithInfo(s, s.addr[ip], Heard(s.info[s.addr[ip]], address, penalty, now)))
    ensures var i := s.info[s.addr[ip]]; !i.fInTried ==> 1 <= i.nRefCount <= NEW_BUCKETS_PER_ADDRESS
  {
    var id := s.addr[ip];
    assert id in s.info;
    hide RandomOk, AddrOk, NewTableOk, TriedTableOk, Inv;
    StatisticsOnly(h, s, id, Heard(s.info[id], address, penalty, now));
    RefsAt(h, s, id);
  }

  lemma RefsAt(h: Hashes, s: State, id: int)
    requires Consistent(h, s) && id in s.info
    ensures if s.info[id].fInTried then s.info[id].nRefCount == 0 else 1 <= s.info[id].nRefCount <= NEW_BUCKETS_PER_ADDRESS
  {
  }

  /** Add_ */
  ghost function AddedState(h: Hashes, s: State, address: Address, source: NetAddr, routable: bool, penalty: int, now: int, draw: nat): State
    requires Consistent(h, s)
  {
    if !routable then s
    else if address.service.ip in s.addr then
      HeardStep(h, s, address.service.ip, address, penalty, now);
      var id := s.addr[address.service.ip];
      var t := WithInfo(s, id, Heard(s.info[id], address, penalty, now));
      if MayRepeat(t.info[id], address, draw) then Settled(h, t, id, source, now) else t
    else
      IntroduceStep(h, s, address, source, penalty);
      Settled(h, Introduced(s, address, source, penalty), s.nIdCount, source, now)
  }

  /** The table once MakeTried has been through the buckets below n. */
  ghost function WithoutBelow(t: Table, id: int, n: nat): Table {
    map s: Slot | s in t && !(t[s] == id && s.0 < n) :: t[s]
  }

  /** An entry can only sit in one position of a bucket. */
  lemma WithoutBelowStep(h: Hashes, info: map<int, Info>, t: Table, id: int, n: nat)
    requires NewTableOk(h, info, t) && id in info
    ensures var slot := (n, h.BucketPosition(info[id], true, n)); var w := WithoutBelow(t, id, n);
            && (slot in w <==> slot in t) && (slot in t ==> w[slot] == t[slot])
            && WithoutBelow(t, id, n + 1) == (if Holds(w, slot, id) then w - {slot} else w)
            && |SlotsOf(WithoutBelow(t, id, n + 1), id)| == |SlotsOf(w, id)| - (if Holds(w, slot, id) then 1 else 0)
  {
    var slot := (n, h.BucketPosition(info[id], true, n));
    var w := WithoutBelow(t, id, n);
    forall s | s in t && t[s] == id && s.0 == n
      ensures s == slot
    {
    }
    if Holds(w, slot, id) {
      SlotsRemoved(w, slot);
    }
  }

  lemma WithoutBelowAll(h: Hashes, info: map<int, Info>, t: Table, id: int)
    requires NewTableOk(h, info, t) && id in info
    ensures WithoutBelow(t, id, 0) == t && WithoutBelow(t, id, NEW_BUCKET_COUNT) == Without(t, id) && SlotsOf(Without(t, id), id) == {}
  {
  }

  method Hear(known: Info, address: Address, penalty: int, now: int) returns (i: Info)
    ensures i == Heard(known, address, penalty, now)
  {
    var fCurrentlyOnline := now - address.nTime < DAY;
    var nUpdateInterval := if fCurrentlyOnline then 60 * 60 else DAY;
    i := known;
    if address.nTime != 0 && (i.address.nTime == 0 || i.address.nTime < address.nTime - nUpdateInterval - penalty) {
      i := i.(address := i.address.(nTime := Max(0, address.nTime - penalty)));
    }
    i := i.(address := i.address.(nServices := i.address.nServices + address.nServices));
  }

  method Factor(count: int) returns (nFactor: int)
    requires count >= 1
    ensures nFactor == Pow2(count) > 1
  {
    nFactor := 1;
    for n := 0 to count
      invariant nFactor == Pow2(n)
    {
      nFactor := nFactor * 2;
    }
  }

  class CAddrMan {
    const h: Hashes
    const vvTried: array2<int>
    const vvNew: array2<int>
    var nIdCount: int
    var mapInfo: map<int, Info>
    var mapAddr: map<NetAddr, int>
    var vRandom: seq<int>
    var nTried: int
    var nNew: int

    ghost predicate Shape() {
      && vvNew.Length0 == NEW_BUCKET_COUNT && vvNew.Length1 == BUCKET_SIZE
      && vvTried.Length0 == TRIED_BUCKET_COUNT && vvTried.Length1 == BUCKET_SIZE
      && vvNew != vvTried
    }

    ghost function St(): State
      reads this, vvTried, vvNew
    {
      State(nIdCount, mapInfo, mapAddr, vRandom, TableOf(vvTried), TableOf(vvNew), nTried, nNew)
    }

    /** Full consistency; Check_ looks for exactly this. */
    ghost predicate Valid()
      reads this, vvTried, vvNew
    {
      Shape() && Consistent(h, St())
    }

    /** Clear_ */
    constructor (h: Hashes)
      ensures Valid() && fresh(vvTried) && fresh(vvNew) && St() == EMPTY && this.h == h
    {
      this.h := h;
      vvTried := new int[TRIED_BUCKET_COUNT, BUCKET_SIZE];
      vvNew := new int[NEW_BUCKET_COUNT, BUCKET_SIZE];
      nIdCount, mapInfo, mapAddr, vRandom, nTried, nNew := 0, map[], map[], [], 0, 0;
      new;
      FillTable(vvNew);
      FillTable(vvTried);
      EmptyConsistent(h);
    }

    /** Find: the id of an address; the entry is always there. */
    method Find(ip: NetAddr) returns (found: bool, id: int)
      requires Valid()
      ensures found <==> ip in mapAddr
      ensures found ==> id == mapAddr[ip] && id in mapInfo && mapInfo[id].address.service.ip == ip
    {
      found := ip in mapAddr;
      id := if found then mapAddr[ip] else -1;
    }

    method Create(address: Address, source: NetAddr) returns (id: int)
      modifies this`nIdCount, this`mapInfo, this`mapAddr, this`vRandom
      ensures St() == Created(old(St()), address, source) && id == old(nIdCount)
    {
      id := nIdCount;
      nIdCount := nIdCount + 1;
      mapInfo := mapInfo[id := NewInfo(address, source)];
      mapAddr := mapAddr[address.service.ip := id];
      mapInfo := mapInfo[id := mapInfo[id].(nRandomPos := |vRandom|)];
      vRandom := vRandom + [id];
    }

    method SwapRandom(i: nat, j: nat)
      requires i < |vRandom| && j < |vRandom| && RandomOk(mapInfo, vRandom)
      modifies this`mapInfo, this`vRandom
      ensures St() == Swapped(old(St()), i, j)
    {
      if i != j {
        var a, b := vRandom[i], vRandom[j];
        assert a in mapInfo && b in mapInfo;
        mapInfo := mapInfo[a := mapInfo[a].(nRandomPos := j)];
        mapInfo := mapInfo[b := mapInfo[b].(nRandomPos := i)];
        vRandom := vRandom[i := b];
        vRandom := vRandom[j := a];
      }
    }

    method Delete(id: int)
      requires RandomOk(mapInfo, vRandom) && id in mapInfo && !mapInfo[id].fInTried && mapInfo[id].nRefCount == 0
      modifies this`mapInfo, this`vRandom, this`mapAddr, this`nNew
      ensures St() == Deleted(old(St()), id)
    {
      RandomAt(mapInfo, vRandom, id);
      SwapRandom(mapInfo[id].nRandomPos, |vRandom| - 1);
      vRandom := vRandom[..|vRandom| - 1];
      mapAddr := mapAddr - {mapInfo[id].address.service.ip};
      mapInfo := mapInfo - {id};
      nNew := nNew - 1;
    }

    method ClearNew(bucket: nat, pos: nat, ghost loose: set<int>, ghost uncounted: set<int>)
      requires Shape() && Inv(h, St(), loose, uncounted) && bucket < NEW_BUCKET_COUNT && pos < BUCKET_SIZE
      modifies this`mapInfo, this`vRandom, this`mapAddr, this`nNew, vvNew
      ensures Inv(h, old(St()), loose, uncounted) && St() == Cleared(h, old(St()), (bucket, pos)) && Inv(h, St(), loose, uncounted)
      ensures vvNew[bucket, pos] == -1
    {
      hide Inv, TableOf;
      InvParts(h, St(), loose, uncounted);
      ClearStep(h, St(), (bucket, pos), loose, uncounted);
      TableAt(vvNew, bucket, pos);
      if vvNew[bucket, pos] != -1 {
        UnreferenceStep(h, St(), (bucket, pos), loose, uncounted);
        UnreferencedRandom(St(), (bucket, pos));
        var id := vvNew[bucket, pos];
        assert mapInfo[id].nRefCount > 0;
        mapInfo := mapInfo[id := mapInfo[id].(nRefCount := mapInfo[id].nRefCount - 1)];
        SetSlot(vvNew, bucket, pos, -1);
        assert St() == Unreferenced(old(St()), (bucket, pos));
        if mapInfo[id].nRefCount == 0 {
          Delete(id);
        }
      }
      TableAt(vvNew, bucket, pos);
    }

    /** The first loop of MakeTried. */
    method DropFromNew(id: int)
      requires Valid() && id in mapInfo && !mapInfo[id].fInTried
      modifies this`mapInfo, vvNew
      ensures St() == Dropped(old(St()), id)
    {
      hide TableOf, WithoutBelow, SlotsOf, Without;
      ghost var t := TableOf(vvNew);
      var i := mapInfo[id];
      RefCountOf(mapInfo, t, {}, id);
      WithoutBelowAll(h, mapInfo, t, id);
      for bucket := 0 to NEW_BUCKET_COUNT
        invariant TableOf(vvNew) == WithoutBelow(t, id, bucket)
        invariant id in mapInfo && mapInfo == old(mapInfo)[id := i.(nRefCount := mapInfo[id].nRefCount)]
        invariant mapInfo[id].nRefCount == |SlotsOf(TableOf(vvNew), id)|
      {
        var pos := h.BucketPosition(mapInfo[id], true, bucket);
        assert pos == h.BucketPosition(i, true, bucket);
        TableAt(vvNew, bucket, pos);
        WithoutBelowStep(h, old(mapInfo), t, id, bucket);
        if vvNew[bucket, pos] == id {
          SetSlot(vvNew, bucket, pos, -1);
          mapInfo := mapInfo[id := mapInfo[id].(nRefCount := mapInfo[id].nRefCount - 1)];
        }
      }
    }

    /** The occupant of the "tried" slot, if there is one, goes back to the "new" table. */
    method Vacate(bucket: nat, pos: nat, id: int)
      requires Shape() && Inv(h, St(), {id}, {id}) && bucket < TRIED_BUCKET_COUNT && pos < BUCKET_SIZE
      modifies this`mapInfo, this`vRandom, this`mapAddr, this`nNew, this`nTried, vvNew, vvTried
      ensures Inv(h, old(St()), {id}, {id}) && St() == Vacated(h, old(St()), (bucket, pos))
      ensures vvTried[bucket, pos] == -1
    {
      hide TableOf, Inv, Cleared, RandomOk, NewTableOk, TriedTableOk, AddrOk, RefsOk, Kept, SameServices, Lost, Evicted;
      InvParts(h, St(), {id}, {id});
      TableAt(vvTried, bucket, pos);
      if vvTried[bucket, pos] != -1 {
        var idEvict := vvTried[bucket, pos];
        EvictStep(h, St(), (bucket, pos), {id}, {id});
        VacateOccupied(h, St(), (bucket, pos), {id});
        EvictFrom(bucket, pos);
        EvictedInfo(old(St()), (bucket, pos));
        var uBucket := h.NewBucket(mapInfo[idEvict], mapInfo[idEvict].source);
        var uPos := h.BucketPosition(mapInfo[idEvict], true, uBucket);
        ClearNew(uBucket, uPos, {id} + {idEvict}, {id} + {idEvict});
        assert vvNew[uBucket, uPos] == -1;
        LooseIsNewInv(h, St(), {id} + {idEvict}, {id} + {idEvict}, idEvict);
        SettleEvicted(idEvict, uBucket, uPos);
      }
      TableAt(vvTried, bucket, pos);
    }

    method EvictFrom(bucket: nat, pos: nat)
      requires Shape() && bucket < TRIED_BUCKET_COUNT && pos < BUCKET_SIZE && vvTried[bucket, pos] != -1 && vvTried[bucket, pos] in mapInfo
      modifies this`mapInfo, this`nTried, vvTried
      ensures old((bucket, pos) in St().tried && St().tried[(bucket, pos)] in St().info) && St() == Evicted(old(St()), (bucket, pos))
    {
      TableAt(vvTried, bucket, pos);
      hide TableOf;
      var idEvict := vvTried[bucket, pos];
      mapInfo := mapInfo[idEvict := mapInfo[idEvict].(fInTried := false)];
      SetSlot(vvTried, bucket, pos, -1);
      nTried := nTried - 1;
    }

    /** The evicted entry takes its slot in the "new" table. */
    method SettleEvicted(idEvict: int, uBucket: nat, uPos: nat)
      requires Shape() && idEvict in mapInfo && mapInfo[idEvict].nRefCount == 0 && idEvict != -1 && uBucket < NEW_BUCKET_COUNT && uPos < BUCKET_SIZE
      modifies this`mapInfo, this`nNew, vvNew
      ensures St() == Referenced(old(St()), (uBucket, uPos), idEvict).(nNew := old(nNew) + 1)
    {
      hide TableOf;
      mapInfo := mapInfo[idEvict := mapInfo[idEvict].(nRefCount := 1)];
      SetSlot(vvNew, uBucket, uPos, idEvict);
      nNew := nNew + 1;
    }

    method MakeTried(id: int)
      requires Valid() && id in mapInfo && !mapInfo[id].fInTried
      modifies this`mapInfo, this`vRandom, this`mapAddr, this`nNew, this`nTried, vvNew, vvTried
      ensures old(Valid()) && Valid() && St() == MadeTried(h, old(St()), id)
    {
      hide TableOf, Inv, Vacated, Without;
      MakeTriedStep(h, St(), id);
      VacateForTried(h, St(), id);
      IdInRange(h, St(), id);
      DropFromNew(id);
      nNew := nNew - 1;
      assert St() == Freed(old(St()), id);
      assert mapInfo[id].nRefCount == 0;
      var kBucket := h.TriedBucket(mapInfo[id]);
      var kPos := h.BucketPosition(mapInfo[id], false, kBucket);
      Vacate(kBucket, kPos, id);
      assert vvTried[kBucket, kPos] == -1;
      SetSlot(vvTried, kBucket, kPos, id);
      nTried := nTried + 1;
      mapInfo := mapInfo[id := mapInfo[id].(fInTried := true)];
    }

    /** The search loop of Good_. It cannot fail: an entry outside the "tried" table has a reference. */
    method FindNewBucket(id: int, start: nat) returns (bucket: int)
      requires Valid() && id in mapInfo && !mapInfo[id].fInTried && start < NEW_BUCKET_COUNT
      ensures 0 <= bucket < NEW_BUCKET_COUNT && vvNew[bucket, h.BucketPosition(mapInfo[id], true, bucket)] == id
    {
      hide Inv, TableOf, SomeBucket;
      ghost var b := SomeBucket(h, St(), id);
      TableAt(vvNew, b, h.BucketPosition(mapInfo[id], true, b));
      ghost var last := if b >= start then b - start else b + NEW_BUCKET_COUNT - start;
      assert (last + start) % NEW_BUCKET_COUNT == b;
      bucket := -1;
      var n := 0;
      while n < NEW_BUCKET_COUNT && bucket == -1
        invariant n <= NEW_BUCKET_COUNT
        invariant if bucket == -1 then n <= last else 0 <= bucket < NEW_BUCKET_COUNT && vvNew[bucket, h.BucketPosition(mapInfo[id], true, bucket)] == id
      {
        var nB := (n + start) % NEW_BUCKET_COUNT;
        if vvNew[nB, h.BucketPosition(mapInfo[id], true, nB)] == id {
          bucket := nB;
        }
        n := n + 1;
      }
    }

    method Good(service: Service, time: int, start: nat)
      requires Valid() && start < NEW_BUCKET_COUNT
      modifies this, vvNew, vvTried
      ensures old(Valid()) && Valid() && St() == GoodState(h, old(St()), service, time)
    {
      hide TableOf, Inv, MadeTried;
      InvParts(h, St(), {}, {});
      var found, id := Find(service.ip);
      if found && mapInfo[id].address.service == service {
        StatisticsOnly(h, St(), id, GoodInfo(mapInfo[id], time));
        mapInfo := mapInfo[id := mapInfo[id].(nLastSuccess := time, nLastTry := time, nAttempts := 0)];
        if !mapInfo[id].fInTried {
          var bucket := FindNewBucket(id, start);
          assert bucket != -1;
          MakeTried(id);
        }
      }
    }

    /** The last part of Add_. */
    method Settle(id: int, source: NetAddr, now: int, ghost loose: set<int>)
      requires Shape() && Inv(h, St(), loose, {}) && id in mapInfo && loose == (if mapInfo[id].nRefCount == 0 then {id} else {})
      requires !mapInfo[id].fInTried && mapInfo[id].nRefCount < NEW_BUCKETS_PER_ADDRESS && id != -1
      modifies this, vvNew
      ensures Inv(h, old(St()), loose, {}) && Valid() && St() == Settled(h, old(St()), id, source, now)
    {
      hide TableOf, Inv, RandomOk, NewTableOk, AddrOk, TriedTableOk, RefsOk, Cleared;
      InvParts(h, St(), loose, {});
      var bucket := h.NewBucket(mapInfo[id], source);
      var pos := h.BucketPosition(mapInfo[id], true, bucket);
      TableAt(vvNew, bucket, pos);
      if vvNew[bucket, pos] != -1 {
        SlotHolds(h, mapInfo, TableOf(vvNew), (bucket, pos));
      }
      if vvNew[bucket, pos] != id {
        var fInsert := vvNew[bucket, pos] == -1;
        if !fInsert {
          var existing := mapInfo[vvNew[bucket, pos]];
          if IsTerrible(existing, now) || (existing.nRefCount > 1 && mapInfo[id].nRefCount == 0) {
            fInsert := true;
          }
        }
        PlaceStep(h, St(), id, (bucket, pos), fInsert, loose);
        if fInsert {
          ClearNew(bucket, pos, loose, {});
          mapInfo := mapInfo[id := mapInfo[id].(nRefCount := mapInfo[id].nRefCount + 1)];
          SetSlot(vvNew, bucket, pos, id);
        } else if mapInfo[id].nRefCount == 0 {
          Delete(id);
        }
      } else {
        PlaceStep(h, St(), id, (bucket, pos), true, loose);
      }
    }

    method Add(address: Address, source: NetAddr, routable: bool, penalty: int, now: int, draw: nat) returns (fNew: bool)
      requires Valid()
      modifies this, vvNew
      ensures old(Valid()) && Valid() && St() == AddedState(h, old(St()), address, source, routable, penalty, now, draw)
      ensures fNew <==> routable && address.service.ip !in old(mapAddr)
    {
      hide TableOf, Inv, RandomOk, NewTableOk, AddrOk, TriedTableOk, RefsOk, Settled;
      fNew := false;
      if routable {
        InvParts(h, St(), {}, {});
        var found, id := Find(address.service.ip);
        if found {
          HeardStep(h, St(), address.service.ip, address, penalty, now);
          AddKnown(id, address, source, penalty, now, draw);
        } else {
          IntroduceStep(h, St(), address, source, penalty);
          EmptyIdRange(h, St());
          id := Create(address, source);
          mapInfo := mapInfo[id := mapInfo[id].(address := mapInfo[id].address.(nTime := Max(0, mapInfo[id].address.nTime - penalty)))];
          nNew := nNew + 1;
          fNew := true;
          Settle(id, source, now, {id});
        }
      }
    }

    /** Add_ for a known address. */
    method AddKnown(id: int, address: Address, source: NetAddr, penalty: int, now: int, draw: nat)
      requires Valid() && id in mapInfo && Consistent(h, WithInfo(St(), id, Heard(mapInfo[id], address, penalty, now)))
      modifies this, vvNew
      ensures Valid()
      ensures var t := WithInfo(old(St()), id, Heard(old(mapInfo)[id], address, penalty, now));
              && Consistent(h, t)
              && St() == if MayRepeat(t.info[id], address, draw) then Settled(h, t, id, source, now) else t
    {
      hide TableOf, Inv, RandomOk, NewTableOk, AddrOk, TriedTableOk, RefsOk, Settled, Heard;
      var i := Hear(mapInfo[id], address, penalty, now);
      mapInfo := mapInfo[id := i];
      assert St() == WithInfo(old(St()), id, i);
      RefsAt(h, St(), id);
      IdInRange(h, St(), id);
      InvParts(h, St(), {}, {});
      if address.nTime != 0 && (i.address.nTime == 0 || address.nTime > i.address.nTime) && !i.fInTried
         && i.nRefCount != NEW_BUCKETS_PER_ADDRESS {
        var nFactor := Factor(i.nRefCount);
        if nFactor <= 1 || draw % nFactor == 0 {
          Settle(id, source, now, {});
        }
      }
    }

    /** One draw: it leaves what was picked so far alone. */
    method Draw(n: nat, pos: nat, now: int, ghost first: map<int, Info>)
      requires Valid() && n <= pos < |vRandom| && RandomOk(mapInfo, vRandom) && OnlyMoved(first, mapInfo)
      modifies this`mapInfo, this`vRandom
      ensures Valid() && RandomOk(mapInfo, vRandom) && OnlyMoved(first, mapInfo) && |vRandom| == |old(vRandom)|
      ensures RandomOk(old(mapInfo), old(vRandom)) && Picked(mapInfo, vRandom, n, now) == Picked(old(mapInfo), old(vRandom), n, now)
      ensures vRandom == Exchanged(old(vRandom), n, pos)
    {
      hide Inv, TableOf, IsTerrible, Picked, OnlyMoved, AddrOk, NewTableOk, TriedTableOk, RefsOk;
      ghost var before := St();
      SwapStep(h, before, n, pos, {}, {});
      SwapRandom(n, pos);
      InvParts(h, St(), {}, {});
      assert vRandom[..n] == before.random[..n];
      PickedSame(before, St(), n, now);
      MovedTwice(first, before.info, mapInfo);
    }

    /** GetAddr_: a Fisher-Yates walk over vRandom. The draws stand for RandomInt. */
    method GetAddr(draws: nat -> nat, now: int) returns (vAddr: seq<Address>, ghost drawn: nat)
      requires Valid()
      modifies this`mapInfo, this`vRandom
      ensures Valid() && OnlyMoved(old(mapInfo), mapInfo) && |vRandom| == |old(vRandom)|
      ensures |vAddr| <= 23 * |vRandom| / 100 && |vAddr| <= 2500
      ensures AllAcceptable(mapInfo, vAddr, now) && NoRepeats(vAddr)
      ensures |vAddr| < 23 * |vRandom| / 100 && |vAddr| < 2500 ==> Complete(mapInfo, vAddr, now)
      ensures drawn <= |vRandom| && vRandom == Shuffled(old(vRandom), draws, drawn)
      ensures (forall i :: 0 <= i < |vRandom| ==> vRandom[i] in mapInfo) && vAddr == Picked(mapInfo, vRandom, drawn, now)
    {
      hide Inv, TableOf, IsTerrible, Picked, AllAcceptable, NoRepeats, Complete, OnlyMoved, AddrOk, NewTableOk, TriedTableOk, RefsOk, Shuffled, Exchanged;
      ShuffledNot(vRandom, draws);
      InvParts(h, St(), {}, {});
      var nNodes := GETADDR_MAX_PCT * |vRandom| / 100;
      if nNodes > GETADDR_MAX {
        nNodes := GETADDR_MAX;
      }
      vAddr := [];
      var n := 0;
      PickedNone(mapInfo, vRandom, now);
      MovedSelf(mapInfo);
      while n < |vRandom| && |vAddr| < nNodes
        invariant n <= |vRandom| == |old(vRandom)| && |vAddr| <= nNodes
        invariant Valid() && OnlyMoved(old(mapInfo), mapInfo) && RandomOk(mapInfo, vRandom)
        invariant vAddr == Picked(mapInfo, vRandom, n, now)
        invariant vRandom == Shuffled(old(vRandom), draws, n)
      {
        var nRndPos := draws(n) % (|vRandom| - n) + n;
        ShuffledNext(old(vRandom), draws, n, nRndPos);
        Draw(n, nRndPos, now, old(mapInfo));
        assert vRandom[n] in mapInfo;
        PickedNext(mapInfo, vRandom, n, now);
        if !IsTerrible(mapInfo[vRandom[n]], now) {
          vAddr := vAddr + [mapInfo[vRandom[n]].address];
        }
        n := n + 1;
      }
      InvParts(h, St(), {}, {});
      PickedSound(mapInfo, mapAddr, vRandom, n, now);
      drawn := n;
    }

    method Attempt(service: Service, time: int)
      requires Valid()
      modifies this`mapInfo
      ensures Valid()
      ensures St() == if !Known(old(St()), service) then old(St()) else
                        var id := old(mapAddr)[service.ip]; var i := old(mapInfo)[id];
                        WithInfo(old(St()), id, i.(nLastTry := time, nAttempts := i.nAttempts + 1))
    {
      hide TableOf, Inv;
      InvParts(h, St(), {}, {});
      var found, id := Find(service.ip);
      if found && mapInfo[id].address.service == service {
        StatisticsOnly(h, St(), id, mapInfo[id].(nLastTry := time, nAttempts := mapInfo[id].nAttempts + 1));
        mapInfo := mapInfo[id := mapInfo[id].(nLastTry := time, nAttempts := mapInfo[id].nAttempts + 1)];
      }
    }

    method Connected(service: Service, time: int)
      requires Valid()
      modifies this`mapInfo
      ensures Valid()
      ensures St() == if !Known(old(St()), service) || time - old(mapInfo)[old(mapAddr)[service.ip]].address.nTime <= 20 * 60 then old(St()) else
                        var id := old(mapAddr)[service.ip]; var i := old(mapInfo)[id];
                        WithInfo(old(St()), id, i.(address := i.address.(nTime := time)))
    {
      hide TableOf, Inv;
      InvParts(h, St(), {}, {});
      var found, id := Find(service.ip);
      if found && mapInfo[id].address.service == service && time - mapInfo[id].address.nTime > 20 * 60 {
        var i := mapInfo[id];
        StatisticsOnly(h, St(), id, i.(address := i.address.(nTime := time)));
        mapInfo := mapInfo[id := i.(address := i.address.(nTime := time))];
      }
    }
  }

  // ---- GetAddr_ ----

  /** The addresses of the acceptable entries among the first n of vRandom. */
  function Picked(info: map<int, Info>, random: seq<int>, n: nat, now: int): seq<Address>
    requires n <= |random| && forall i :: 0 <= i < |random| ==> random[i] in info
  {
    if n == 0 then [] else
      Picked(info, random, n - 1, now) + if IsTerrible(info[random[n - 1]], now) then [] else [info[random[n - 1]].address]
  }

  lemma {:induction false} PickedSame(a: State, b: State, n: nat, now: int)
    requires n <= |a.random| && n <= |b.random| && a.random[..n] == b.random[..n]
    requires RandomOk(a.info, a.random) && RandomOk(b.info, b.random) && OnlyMoved(a.info, b.info)
    ensures Picked(a.info, a.random, n, now) == Picked(b.info, b.random, n, now)
  {
    if n > 0 {
      assert a.random[..n - 1] == a.random[..n][..n - 1] == b.random[..n][..n - 1] == b.random[..n - 1];
      assert a.random[n - 1] == a.random[..n][n - 1] == b.random[..n][n - 1] == b.random[n - 1];
      PickedSame(a, b, n - 1, now);
      assert a.random[n - 1] in a.info;
    }
  }

  lemma PickedNone(info: map<int, Info>, random: seq<int>, now: int)
    requires RandomOk(info, random)
    ensures Picked(info, random, 0, now) == []
  {
  }

  lemma PickedNext(info: map<int, Info>, random: seq<int>, n: nat, now: int)
    requires RandomOk(info, random) && n < |random|
    ensures random[n] in info
    ensures Picked(info, random, n + 1, now)
         == Picked(info, random, n, now) + if IsTerrible(info[random[n]], now) then [] else [info[random[n]].address]
  {
  }

  lemma MovedSelf(a: map<int, Info>)
    ensures OnlyMoved(a, a)
  {
  }

  lemma MovedTwice(a: map<int, Info>, b: map<int, Info>, c: map<int, Info>)
    requires OnlyMoved(a, b) && OnlyMoved(b, c)
    ensures OnlyMoved(a, c)
  {
    forall id
      ensures id in a <==> id in c
    {
      assert id in a <==> id in b;
    }
  }

  /** Every address given out belongs to an entry that is not terrible. */
  ghost predicate AllAcceptable(info: map<int, Info>, v: seq<Address>, now: int) {
    forall k :: 0 <= k < |v| ==> Acceptable(info, v[k], now)
  }

  ghost predicate Acceptable(info: map<int, Info>, a: Address, now: int) {
    exists id :: id in info && a == info[id].address && !IsTerrible(info[id], now)
  }

  ghost predicate NoRepeats(v: seq<Address>) {
    forall j, k :: 0 <= j < k < |v| ==> v[j].service.ip != v[k].service.ip
  }

  /** No entry that is not terrible is passed over. */
  ghost predicate Complete(info: map<int, Info>, v: seq<Address>, now: int) {
    forall id :: id in info && !IsTerrible(info[id], now) ==> info[id].address in v
  }

  lemma PickedSound(info: map<int, Info>, addr: map<NetAddr, int>, random: seq<int>, n: nat, now: int)
    requires RandomOk(info, random) && AddrOk(info, addr) && n <= |random|
    ensures var p := Picked(info, random, n, now);
            AllAcceptable(info, p, now) && NoRepeats(p) && (n == |random| ==> Complete(info, p, now))
  {
    PickedFrom(info, addr, random, n, now);
    var p := Picked(info, random, n, now);
    forall k | 0 <= k < |p|
      ensures Acceptable(info, p[k], now)
    {
      var i :| 0 <= i < n && p[k] == info[random[i]].address && !IsTerrible(info[random[i]], now);
      var id := random[i];
      assert id in info;
    }
    if n == |random| {
      forall id | id in info && !IsTerrible(info[id], now)
        ensures info[id].address in p
      {
        var i := info[id].nRandomPos;
        assert random[i] == id;
      }
    }
  }

  lemma {:induction false} PickedFrom(info: map<int, Info>, addr: map<NetAddr, int>, random: seq<int>, n: nat, now: int)
    requires RandomOk(info, random) && AddrOk(info, addr) && n <= |random|
    ensures var p := Picked(info, random, n, now);
            && (forall k :: 0 <= k < |p| ==> exists i :: 0 <= i < n && p[k] == info[random[i]].address && !IsTerrible(info[random[i]], now))
            && (forall j, k :: 0 <= j < k < |p| ==> p[j].service.ip != p[k].service.ip)
            && (forall i :: 0 <= i < n && !IsTerrible(info[random[i]], now) ==> info[random[i]].address in p)
  {
    if n > 0 {
      PickedFrom(info, addr, random, n - 1, now);
      var q := Picked(info, random, n - 1, now);
      var last := info[random[n - 1]];
      forall k | 0 <= k < |q|
        ensures q[k].service.ip != last.address.service.ip
      {
        var i :| 0 <= i < n - 1 && q[k] == info[random[i]].address && !IsTerrible(info[random[i]], now);
        assert random[i] in info && random[n - 1] in info && random[i] != random[n - 1];
      }
      assert !IsTerrible(last, now) ==> last.address in Picked(info, random, n, now);
    }
  }

  /** A bucket that holds an entry of the "new" table. */
  ghost function SomeBucket(h: Hashes, s: State, id: int): (b: nat)
    requires Consistent(h, s) && id in s.info && !s.info[id].fInTried
    ensures b < NEW_BUCKET_COUNT && Holds(s.new_, (b, h.BucketPosition(s.info[id], true, b)), id)
  {
    assert |SlotsOf(s.new_, id)| >= 1;
    var slot :| slot in SlotsOf(s.new_, id);
    SlotHolds(h, s.info, s.new_, slot);
    assert slot == (slot.0, h.BucketPosition(s.info[id], true, slot.0));
    slot.0
  }

  lemma EvictedInfo(s: State, slot: Slot)
    requires slot in s.tried && s.tried[slot] in s.info
    ensures var i := s.info[s.tried[slot]]; Evicted(s, slot).info == s.info[s.tried[slot] := i.(fInTried := false)]
  {
  }

  lemma LooseIsNewInv(h: Hashes, s: State, loose: set<int>, uncounted: set<int>, id: int)
    requires Inv(h, s, loose, uncounted) && id in loose
    ensures id in s.info && s.info[id].nRefCount == 0 && 0 <= id
  {
  }

  lemma RefCountOf(info: map<int, Info>, t: Table, loose: set<int>, id: int)
    requires RefsOk(info, t, loose) && id in info && !info[id].fInTried
    ensures info[id].nRefCount == |SlotsOf(t, id)|
  {
  }

  lemma EmptyIdRange(h: Hashes, s: State)
    requires Consistent(h, s)
    ensures s.nIdCount >= 0
  {
  }

  lemma IdInRange(h: Hashes, s: State, id: int)
    requires Consistent(h, s) && id in s.info
    ensures 0 <= id < s.nIdCount
  {
  }
}
