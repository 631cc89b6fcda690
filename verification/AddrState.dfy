/** The tables of the address manager (class CAddrMan of src/addrman.h) as values, and their consistency. */
module AddrState {

  const TRIED_BUCKET_COUNT := 256
  const NEW_BUCKET_COUNT := 1024
  const BUCKET_SIZE := 64
  const NEW_BUCKETS_PER_ADDRESS := 8

  /** CNetAddr; CService adds the port. */
  type NetAddr = nat
  datatype Service = Service(ip: NetAddr, port: nat)

  /** CAddress; the service bits are a set, so that |= is union. */
  datatype Address = Address(service: Service, nServices: set<nat>, nTime: int)

  /** CAddrInfo */
  datatype Info = Info(
    address: Address,
    source: NetAddr,
    nLastTry: int,
    nLastSuccess: int,
    nAttempts: int,
    nRefCount: int,
    fInTried: bool,
    nRandomPos: int)

  function NewInfo(address: Address, source: NetAddr): Info {
    Info(address, source, 0, 0, 0, 0, false, -1)
  }

  /** The keyed hashes; nKey and the asmap are fixed, and GetGroup and GetKey are part of them. */
  datatype Hashes = Hashes(tried: Service -> nat, new_: (Service, NetAddr) -> nat, position: (Service, bool, nat) -> nat) {
    function TriedBucket(i: Info): (b: nat)
      ensures b < TRIED_BUCKET_COUNT
    {
      tried(i.address.service) % TRIED_BUCKET_COUNT
    }

    function NewBucket(i: Info, source: NetAddr): (b: nat)
      ensures b < NEW_BUCKET_COUNT
    {
      new_(i.address.service, source) % NEW_BUCKET_COUNT
    }

    function BucketPosition(i: Info, fNew: bool, bucket: nat): (p: nat)
      ensures p < BUCKET_SIZE
    {
      position(i.address.service, fNew, bucket) % BUCKET_SIZE
    }

    function TriedSlot(i: Info): Slot {
      (TriedBucket(i), BucketPosition(i, false, TriedBucket(i)))
    }
  }

  /** A bucket number and a position in the bucket. A table maps its occupied slots to ids. */
  type Slot = (nat, nat)
  type Table = map<Slot, int>

  datatype State = State(
    nIdCount: int,
    info: map<int, Info>,
    addr: map<NetAddr, int>,
    random: seq<int>,
    tried: Table,
    new_: Table,
    nTried: int,
    nNew: int)

  // ---- consistency ----

  ghost function TriedIds(info: map<int, Info>): set<int> {
    set id | id in info && info[id].fInTried
  }

  ghost function NewIds(info: map<int, Info>): set<int> {
    set id | id in info && !info[id].fInTried
  }

  /** The slots of a table that hold an id. */
  ghost function SlotsOf(t: Table, id: int): set<Slot> {
    set s | s in t && t[s] == id
  }

  /** vRandom lists every id once, and nRandomPos is the inverse of that list. */
  ghost predicate RandomOk(info: map<int, Info>, random: seq<int>) {
    && (forall i :: 0 <= i < |random| ==> random[i] in info && info[random[i]].nRandomPos == i)
    && (forall id :: id in info ==> 0 <= info[id].nRandomPos < |random| && random[info[id].nRandomPos] == id)
  }

  /** mapAddr is the inverse of mapInfo. */
  ghost predicate AddrOk(info: map<int, Info>, addr: map<NetAddr, int>) {
    && (forall id :: id in info ==> info[id].address.service.ip in addr && addr[info[id].address.service.ip] == id)
    && (forall a :: a in addr ==> addr[a] in info && info[addr[a]].address.service.ip == a)
  }

  /** Every occupied "new" slot is the one its entry hashes to within that bucket. */
  ghost predicate NewTableOk(h: Hashes, info: map<int, Info>, t: Table) {
    forall s :: s in t ==>
      s.0 < NEW_BUCKET_COUNT && t[s] in info && !info[t[s]].fInTried && s.1 == h.BucketPosition(info[t[s]], true, s.0)
  }

  ghost predicate TriedTableOk(h: Hashes, info: map<int, Info>, t: Table) {
    && (forall s :: s in t ==> t[s] in info && info[t[s]].fInTried && s == h.TriedSlot(info[t[s]]))
    && (forall id :: id in info && info[id].fInTried ==> h.TriedSlot(info[id]) in t && t[h.TriedSlot(info[id])] == id)
  }

  /** Reference counts are exact; between the steps of an operation the loose entries are in no table. */
  ghost predicate RefsOk(info: map<int, Info>, t: Table, loose: set<int>) {
    forall id :: id in info ==>
      if info[id].fInTried then info[id].nRefCount == 0 && id !in loose
      else
        && info[id].nRefCount == |SlotsOf(t, id)|
        && (if id in loose then info[id].nRefCount == 0 else 1 <= info[id].nRefCount <= NEW_BUCKETS_PER_ADDRESS)
  }

  /** Everything but mapAddr, where the entries in uncounted are left out of nNew for the moment. */
  ghost predicate TablesOk(h: Hashes, s: State, loose: set<int>, uncounted: set<int>) {
    && RandomOk(s.info, s.random)
    && NewTableOk(h, s.info, s.new_)
    && TriedTableOk(h, s.info, s.tried)
    && RefsOk(s.info, s.new_, loose)
    && s.nIdCount >= 0 && (forall id :: id in s.info ==> 0 <= id < s.nIdCount)
    && loose <= s.info.Keys && uncounted <= loose
    && s.nTried == |TriedIds(s.info)|
    && s.nNew == |NewIds(s.info) - uncounted|
  }

  ghost predicate Inv(h: Hashes, s: State, loose: set<int>, uncounted: set<int>) {
    AddrOk(s.info, s.addr) && TablesOk(h, s, loose, uncounted)
  }

  /** Full consistency, as it holds between operations. */
  ghost predicate Consistent(h: Hashes, s: State) {
    Inv(h, s, {}, {})
  }

  const EMPTY := State(0, map[], map[], [], map[], map[], 0, 0)

  lemma EmptyConsistent(h: Hashes)
    ensures Consistent(h, EMPTY)
  {
    assert TriedIds(EMPTY.info) == {} && NewIds(EMPTY.info) - {} == {};
  }

  // ---- the primitive steps ----

  /** An entry takes the next id. */
  function Entered(s: State, i: Info): State {
    s.(nIdCount := s.nIdCount + 1,
       info := s.info[s.nIdCount := i],
       addr := s.addr[i.address.service.ip := s.nIdCount],
       random := s.random + [s.nIdCount])
  }

  /** CAddrMan::Create */
  function Created(s: State, address: Address, source: NetAddr): State {
    Entered(s, NewInfo(address, source).(nRandomPos := |s.random|))
  }

  lemma CreateRandom(info: map<int, Info>, random: seq<int>, id: int, i: Info)
    requires RandomOk(info, random) && id !in info && i.nRandomPos == |random|
    ensures RandomOk(info[id := i], random + [id])
  {
  }

  lemma CreateAddr(info: map<int, Info>, addr: map<NetAddr, int>, id: int, i: Info)
    requires AddrOk(info, addr) && id !in info && i.address.service.ip !in addr
    ensures AddrOk(info[id := i], addr[i.address.service.ip := id])
  {
  }

  lemma CreateTables(h: Hashes, info: map<int, Info>, new_: Table, tried: Table, id: int, i: Info)
    requires NewTableOk(h, info, new_) && TriedTableOk(h, info, tried) && id !in info && !i.fInTried
    ensures NewTableOk(h, info[id := i], new_) && TriedTableOk(h, info[id := i], tried)
  {
  }

  lemma CreateRefs(h: Hashes, info: map<int, Info>, new_: Table, id: int, i: Info, loose: set<int>)
    requires NewTableOk(h, info, new_) && RefsOk(info, new_, loose) && id !in info && !i.fInTried && i.nRefCount == 0
    ensures RefsOk(info[id := i], new_, loose + {id})
  {
    forall s | s in new_
      ensures new_[s] != id
    {
      var x := new_[s];
      assert x in info;
    }
    assert SlotsOf(new_, id) == {};
  }

  lemma NewIdsAdded(info: map<int, Info>, id: int, i: Info, uncounted: set<int>)
    requires id !in info && !i.fInTried && id !in uncounted
    ensures |NewIds(info[id := i]) - uncounted| == |NewIds(info) - uncounted| + 1 && TriedIds(info[id := i]) == TriedIds(info)
  {
    hide NewIds, TriedIds;
    IdsAdded(info, id, i);
    assert (NewIds(info) + {id}) - uncounted == (NewIds(info) - uncounted) + {id};
  }

  lemma IdsAdded(info: map<int, Info>, id: int, i: Info)
    requires id !in info && !i.fInTried
    ensures NewIds(info[id := i]) == NewIds(info) + {id} && TriedIds(info[id := i]) == TriedIds(info) && id !in NewIds(info)
  {
  }

  lemma FreshId(h: Hashes, s: State, loose: set<int>, uncounted: set<int>)
    requires Inv(h, s, loose, uncounted)
    ensures s.nIdCount !in s.info && s.nIdCount !in loose && s.nIdCount !in uncounted
  {
    FreshInTables(h, s, loose, uncounted);
  }

  lemma FreshInTables(h: Hashes, s: State, loose: set<int>, uncounted: set<int>)
    requires TablesOk(h, s, loose, uncounted)
    ensures s.nIdCount !in s.info && s.nIdCount !in loose && s.nIdCount !in uncounted
  {
  }

  lemma EnterStep(h: Hashes, s: State, i: Info, loose: set<int>, uncounted: set<int>)
    requires Inv(h, s, loose, uncounted) && i.address.service.ip !in s.addr
    requires !i.fInTried && i.nRefCount == 0 && i.nRandomPos == |s.random|
    ensures Inv(h, Entered(s, i).(nNew := s.nNew + 1), loose + {s.nIdCount}, uncounted)
  {
    hide AddrOk, TablesOk;
    FreshId(h, s, loose, uncounted);
    EnterTables(h, s, i, loose, uncounted);
    CreateAddr(s.info, s.addr, s.nIdCount, i);
  }

  lemma EnterTables(h: Hashes, s: State, i: Info, loose: set<int>, uncounted: set<int>)
    requires TablesOk(h, s, loose, uncounted) && !i.fInTried && i.nRefCount == 0 && i.nRandomPos == |s.random|
    ensures TablesOk(h, Entered(s, i).(nNew := s.nNew + 1), loose + {s.nIdCount}, uncounted)
  {
    hide RandomOk, NewTableOk, TriedTableOk, RefsOk, TriedIds, NewIds;
    FreshInTables(h, s, loose, uncounted);
    CreateRandom(s.info, s.random, s.nIdCount, i);
    CreateTables(h, s.info, s.new_, s.tried, s.nIdCount, i);
    CreateRefs(h, s.info, s.new_, s.nIdCount, i, loose);
    NewIdsAdded(s.info, s.nIdCount, i, uncounted);
  }

  lemma CreateStep(h: Hashes, s: State, address: Address, source: NetAddr)
    requires Consistent(h, s) && address.service.ip !in s.addr
    ensures Inv(h, Created(s, address, source).(nNew := s.nNew + 1), {s.nIdCount}, {})
  {
    hide Inv;
    EnterStep(h, s, NewInfo(address, source).(nRandomPos := |s.random|), {}, {});
    assert {} + {s.nIdCount} == {s.nIdCount};
  }

  /** CAddrMan::SwapRandom, when the positions differ */
  function Swapped(s: State, i: nat, j: nat): State
    requires i < |s.random| && j < |s.random| && s.random[i] in s.info && s.random[j] in s.info
  {
    if i == j then s else
      var a, b := s.random[i], s.random[j];
      var info := s.info[a := s.info[a].(nRandomPos := j)];
      s.(info := info[b := info[b].(nRandomPos := i)], random := s.random[i := b][j := a])
  }

  /** The entries differ only in their places in vRandom and in their statistics. */
  ghost predicate SameEntries(a: map<int, Info>, b: map<int, Info>) {
    && (forall id :: id in a <==> id in b)
    && (forall id :: id in a && id in b ==>
          && a[id].address.service == b[id].address.service && a[id].source == b[id].source
          && a[id].nRefCount == b[id].nRefCount && a[id].fInTried == b[id].fInTried)
  }

  /** The entries differ only in their places in vRandom. */
  ghost predicate OnlyMoved(a: map<int, Info>, b: map<int, Info>) {
    && (forall id :: id in a <==> id in b)
    && (forall id :: id in a && id in b ==> b[id] == a[id].(nRandomPos := b[id].nRandomPos))
  }

  lemma OnlyMovedSame(a: map<int, Info>, b: map<int, Info>)
    requires OnlyMoved(a, b)
    ensures SameEntries(a, b)
  {
  }

  lemma SameAddr(a: map<int, Info>, b: map<int, Info>, addr: map<NetAddr, int>)
    requires SameEntries(a, b) && AddrOk(a, addr)
    ensures AddrOk(b, addr)
  {
    forall x | x in addr
      ensures addr[x] in b && b[addr[x]].address.service.ip == x
    {
      var id := addr[x];
      assert id in a;
    }
  }

  lemma SameTables(h: Hashes, a: map<int, Info>, b: map<int, Info>, new_: Table, tried: Table)
    requires SameEntries(a, b) && NewTableOk(h, a, new_) && TriedTableOk(h, a, tried)
    ensures NewTableOk(h, b, new_) && TriedTableOk(h, b, tried)
  {
    forall s | s in new_
      ensures new_[s] in b && !b[new_[s]].fInTried && s.1 == h.BucketPosition(b[new_[s]], true, s.0)
    {
      var id := new_[s];
      assert id in a;
    }
    forall s | s in tried
      ensures tried[s] in b && b[tried[s]].fInTried && s == h.TriedSlot(b[tried[s]])
    {
      var id := tried[s];
      assert id in a;
    }
    forall id | id in b && b[id].fInTried
      ensures h.TriedSlot(b[id]) in tried && tried[h.TriedSlot(b[id])] == id
    {
      assert id in a && h.TriedSlot(a[id]) == h.TriedSlot(b[id]);
    }
  }

  lemma SameRefs(a: map<int, Info>, b: map<int, Info>, new_: Table, loose: set<int>)
    requires SameEntries(a, b) && RefsOk(a, new_, loose)
    ensures RefsOk(b, new_, loose)
  {
  }

  lemma SameIds(a: map<int, Info>, b: map<int, Info>)
    requires SameEntries(a, b)
    ensures TriedIds(a) == TriedIds(b) && NewIds(a) == NewIds(b) && a.Keys == b.Keys
  {
    forall id
      ensures id in TriedIds(a) <==> id in TriedIds(b)
      ensures id in NewIds(a) <==> id in NewIds(b)
      ensures id in a.Keys <==> id in b.Keys
    {
      assert id in a <==> id in b;
    }
  }

  /** Moving entries within vRandom or updating their statistics keeps the invariant. */
  lemma StatisticsStep(h: Hashes, s: State, info: map<int, Info>, random: seq<int>, loose: set<int>, uncounted: set<int>)
    requires Inv(h, s, loose, uncounted) && SameEntries(s.info, info) && RandomOk(info, random)
    ensures Inv(h, s.(info := info, random := random), loose, uncounted)
  {
    hide AddrOk, TablesOk, SameEntries;
    SameAddr(s.info, info, s.addr);
    StatisticsTables(h, s, info, random, loose, uncounted);
  }

  lemma StatisticsTables(h: Hashes, s: State, info: map<int, Info>, random: seq<int>, loose: set<int>, uncounted: set<int>)
    requires TablesOk(h, s, loose, uncounted) && SameEntries(s.info, info) && RandomOk(info, random)
    ensures TablesOk(h, s.(info := info, random := random), loose, uncounted)
  {
    hide RandomOk, NewTableOk, TriedTableOk, RefsOk, TriedIds, NewIds, SameEntries;
    SameTables(h, s.info, info, s.new_, s.tried);
    SameRefs(s.info, info, s.new_, loose);
    SameIds(s.info, info);
  }

  lemma SwapRandomOk(s: State, i: nat, j: nat)
    requires RandomOk(s.info, s.random) && i < |s.random| && j < |s.random|
    ensures RandomOk(Swapped(s, i, j).info, Swapped(s, i, j).random)
    ensures OnlyMoved(s.info, Swapped(s, i, j).info)
  {
    var a, b, t := s.random[i], s.random[j], Swapped(s, i, j);
    if i != j {
      assert a != b;
      forall k | 0 <= k < |t.random|
        ensures t.random[k] in t.info && t.info[t.random[k]].nRandomPos == k
      {
        assert s.random[k] in s.info && s.info[s.random[k]].nRandomPos == k;
      }
      forall id | id in t.info
        ensures 0 <= t.info[id].nRandomPos < |t.random| && t.random[t.info[id].nRandomPos] == id
      {
        assert id in s.info;
      }
    }
  }

  lemma SwapStep(h: Hashes, s: State, i: nat, j: nat, loose: set<int>, uncounted: set<int>)
    requires Inv(h, s, loose, uncounted) && i < |s.random| && j < |s.random|
    ensures Inv(h, Swapped(s, i, j), loose, uncounted)
    ensures OnlyMoved(s.info, Swapped(s, i, j).info)
  {
    SwapRandomOk(s, i, j);
    OnlyMovedSame(s.info, Swapped(s, i, j).info);
    hide RandomOk, AddrOk, NewTableOk, TriedTableOk, RefsOk, TriedIds, NewIds, SameEntries;
    StatisticsStep(h, s, Swapped(s, i, j).info, Swapped(s, i, j).random, loose, uncounted);
  }

  // ---- deleting an entry ----

  /** CAddrMan::Delete */
  function Deleted(s: State, id: int): State
    requires RandomOk(s.info, s.random) && id in s.info
  {
    var last := |s.random| - 1;
    var t := Swapped(s, s.info[id].nRandomPos, last);
    t.(random := t.random[..last], addr := t.addr - {t.info[id].address.service.ip}, info := t.info - {id}, nNew := t.nNew - 1)
  }

  lemma RemoveRandom(info: map<int, Info>, random: seq<int>, id: int)
    requires RandomOk(info, random) && id in info && info[id].nRandomPos == |random| - 1
    ensures RandomOk(info - {id}, random[..|random| - 1])
  {
  }

  lemma RemoveAddr(info: map<int, Info>, addr: map<NetAddr, int>, id: int)
    requires AddrOk(info, addr) && id in info
    ensures AddrOk(info - {id}, addr - {info[id].address.service.ip})
  {
    forall x | x in addr - {info[id].address.service.ip}
      ensures addr[x] in info - {id}
    {
      var y := addr[x];
      assert y in info;
    }
  }

  lemma RemoveTables(h: Hashes, info: map<int, Info>, new_: Table, tried: Table, loose: set<int>, id: int)
    requires NewTableOk(h, info, new_) && TriedTableOk(h, info, tried) && RefsOk(info, new_, loose) && id in loose && id in info
    ensures NewTableOk(h, info - {id}, new_) && TriedTableOk(h, info - {id}, tried) && RefsOk(info - {id}, new_, loose - {id})
  {
    assert SlotsOf(new_, id) == {};
    forall s | s in new_
      ensures new_[s] != id
    {
      assert s !in SlotsOf(new_, id);
    }
  }

  lemma NewIdsRemoved(info: map<int, Info>, id: int, uncounted: set<int>)
    requires id in info && !info[id].fInTried && id !in uncounted
    ensures |NewIds(info - {id}) - uncounted| == |NewIds(info) - uncounted| - 1
    ensures TriedIds(info - {id}) == TriedIds(info)
  {
    assert NewIds(info - {id}) - uncounted == (NewIds(info) - uncounted) - {id};
    assert id in NewIds(info) - uncounted;
  }

  lemma DeleteStep(h: Hashes, s: State, id: int, loose: set<int>, uncounted: set<int>)
    requires Inv(h, s, loose, uncounted) && id in loose - uncounted
    ensures Inv(h, Deleted(s, id), loose - {id}, uncounted)
    ensures Deleted(s, id).info.Keys == s.info.Keys - {id} && OnlyMoved(s.info - {id}, Deleted(s, id).info)
    ensures Deleted(s, id).tried == s.tried && Deleted(s, id).new_ == s.new_ && Deleted(s, id).nTried == s.nTried
  {
    hide RandomOk, AddrOk, TablesOk, SameEntries, OnlyMoved;
    TablesRandom(h, s, loose, uncounted);
    DeleteTables(h, s, id, loose, uncounted);
    RandomAt(s.info, s.random, id);
    var t := Swapped(s, s.info[id].nRandomPos, |s.random| - 1);
    SwapRandomOk(s, s.info[id].nRandomPos, |s.random| - 1);
    OnlyMovedSame(s.info, t.info);
    SameAddr(s.info, t.info, s.addr);
    RandomAt(t.info, t.random, id) by { SameIds(s.info, t.info); }
    RemoveAddr(t.info, t.addr, id);
  }

  lemma TablesRandom(h: Hashes, s: State, loose: set<int>, uncounted: set<int>)
    requires TablesOk(h, s, loose, uncounted)
    ensures RandomOk(s.info, s.random) && loose <= s.info.Keys
  {
  }

  lemma DeleteTables(h: Hashes, s: State, id: int, loose: set<int>, uncounted: set<int>)
    requires TablesOk(h, s, loose, uncounted) && id in loose - uncounted
    ensures TablesOk(h, Deleted(s, id), loose - {id}, uncounted)
    ensures Deleted(s, id).info.Keys == s.info.Keys - {id} && OnlyMoved(s.info - {id}, Deleted(s, id).info)
    ensures Deleted(s, id).tried == s.tried && Deleted(s, id).new_ == s.new_ && Deleted(s, id).nTried == s.nTried
    ensures Deleted(s, id).addr == s.addr - {s.info[id].address.service.ip}
  {
    hide RandomOk, TablesOk, SameEntries, OnlyMoved;
    TablesRandom(h, s, loose, uncounted);
    RandomAt(s.info, s.random, id);
    var last := |s.random| - 1;
    var t := Swapped(s, s.info[id].nRandomPos, last);
    SwapRandomOk(s, s.info[id].nRandomPos, last);
    OnlyMovedSame(s.info, t.info);
    StatisticsTables(h, s, t.info, t.random, loose, uncounted);
    SameIds(s.info, t.info);
    OnlyMovedWithout(s.info, t.info, id);
    SwappedAddress(s, s.info[id].nRandomPos, last, id);
    PopTables(h, t, id, loose, uncounted);
  }

  lemma SwappedAddress(s: State, i: nat, j: nat, id: int)
    requires i < |s.random| && j < |s.random| && s.random[i] in s.info && s.random[j] in s.info && id in s.info && s.random[i] == id
    ensures var t := Swapped(s, i, j); id in t.info && t.info[id].address == s.info[id].address
    ensures Swapped(s, i, j).random[j] == id && |Swapped(s, i, j).random| == |s.random|
  {
  }

  /** The entry at the end of vRandom goes. */
  lemma PopTables(h: Hashes, t: State, id: int, loose: set<int>, uncounted: set<int>)
    requires TablesOk(h, t, loose, uncounted) && id in loose - uncounted && t.random != [] && t.random[|t.random| - 1] == id
    ensures id in t.info && TablesOk(h, t.(random := t.random[..|t.random| - 1], addr := t.addr - {t.info[id].address.service.ip},
                                           info := t.info - {id}, nNew := t.nNew - 1), loose - {id}, uncounted)
  {
    hide RandomOk, NewTableOk, TriedTableOk, RefsOk, TriedIds, NewIds;
    RandomAt(t.info, t.random, id);
    RemoveRandom(t.info, t.random, id);
    RemoveTables(h, t.info, t.new_, t.tried, loose, id);
    LooseIsNew(t.info, t.new_, loose, id);
    NewIdsRemoved(t.info, id, uncounted);
  }

  lemma RandomAt(info: map<int, Info>, random: seq<int>, id: int)
    requires RandomOk(info, random) && id in info
    ensures 0 <= info[id].nRandomPos < |random| && random[info[id].nRandomPos] == id && random[|random| - 1] in info
    ensures random[|random| - 1] == id ==> info[id].nRandomPos == |random| - 1
  {
  }

  lemma LooseIsNew(info: map<int, Info>, new_: Table, loose: set<int>, id: int)
    requires RefsOk(info, new_, loose) && id in loose && id in info
    ensures !info[id].fInTried && info[id].nRefCount == 0
  {
  }

  lemma OnlyMovedWithout(a: map<int, Info>, b: map<int, Info>, id: int)
    requires OnlyMoved(a, b)
    ensures OnlyMoved(a - {id}, b - {id})
  {
    forall x
      ensures x in a - {id} <==> x in b - {id}
    {
      assert x in a <==> x in b;
    }
  }

  // ---- references from the "new" table ----

  /** An entry whose address and place stay: what a change to its counters keeps. */
  lemma UpdateInfo(info: map<int, Info>, random: seq<int>, addr: map<NetAddr, int>, id: int, i: Info)
    requires RandomOk(info, random) && id in info
    requires i.nRandomPos == info[id].nRandomPos && i.address.service == info[id].address.service
    ensures RandomOk(info[id := i], random) && (AddrOk(info, addr) ==> AddrOk(info[id := i], addr))
  {
  }

  /** One reference less. */
  function Unreferenced(s: State, slot: Slot): State
    requires slot in s.new_ && s.new_[slot] in s.info
  {
    var id := s.new_[slot];
    s.(info := s.info[id := s.info[id].(nRefCount := s.info[id].nRefCount - 1)], new_ := s.new_ - {slot})
  }

  lemma SlotsRemoved(t: Table, slot: Slot)
    requires slot in t
    ensures |SlotsOf(t - {slot}, t[slot])| == |SlotsOf(t, t[slot])| - 1
    ensures forall id :: id != t[slot] ==> SlotsOf(t - {slot}, id) == SlotsOf(t, id)
  {
    assert SlotsOf(t - {slot}, t[slot]) == SlotsOf(t, t[slot]) - {slot};
    assert slot in SlotsOf(t, t[slot]);
  }

  lemma SlotsAdded(t: Table, slot: Slot, id: int)
    requires slot !in t
    ensures |SlotsOf(t[slot := id], id)| == |SlotsOf(t, id)| + 1
    ensures forall x :: x != id ==> SlotsOf(t[slot := id], x) == SlotsOf(t, x)
  {
    assert SlotsOf(t[slot := id], id) == SlotsOf(t, id) + {slot};
    assert slot !in SlotsOf(t, id);
  }

  lemma UnreferenceTables(h: Hashes, info: map<int, Info>, new_: Table, tried: Table, loose: set<int>, slot: Slot, i: Info)
    requires NewTableOk(h, info, new_) && TriedTableOk(h, info, tried) && RefsOk(info, new_, loose) && slot in new_ && new_[slot] in info
    requires i == info[new_[slot]].(nRefCount := info[new_[slot]].nRefCount - 1)
    ensures var id := new_[slot]; var info' := info[id := i];
            && id !in loose && !i.fInTried && i.nRefCount >= 0
            && NewTableOk(h, info', new_ - {slot}) && TriedTableOk(h, info', tried)
            && RefsOk(info', new_ - {slot}, if i.nRefCount == 0 then loose + {id} else loose)
  {
    var id := new_[slot];
    SlotsRemoved(new_, slot);
    assert slot in SlotsOf(new_, id);
    var info' := info[id := i];
    forall s | s in new_ - {slot}
      ensures new_[s] in info' && !info'[new_[s]].fInTried && s.1 == h.BucketPosition(info'[new_[s]], true, s.0)
    {
    }
    forall x | x in info' && info'[x].fInTried
      ensures h.TriedSlot(info'[x]) in tried && tried[h.TriedSlot(info'[x])] == x
    {
      assert h.TriedSlot(info'[x]) == h.TriedSlot(info[x]);
    }
  }

  lemma IdsKept(info: map<int, Info>, id: int, i: Info)
    requires id in info && i.fInTried == info[id].fInTried
    ensures TriedIds(info[id := i]) == TriedIds(info) && NewIds(info[id := i]) == NewIds(info)
  {
  }

  lemma SlotHolds(h: Hashes, info: map<int, Info>, new_: Table, slot: Slot)
    requires NewTableOk(h, info, new_) && slot in new_
    ensures new_[slot] in info && !info[new_[slot]].fInTried && slot.0 < NEW_BUCKET_COUNT
    ensures slot.1 == h.BucketPosition(info[new_[slot]], true, slot.0)
  {
  }

  lemma UnreferenceStep(h: Hashes, s: State, slot: Slot, loose: set<int>, uncounted: set<int>)
    requires Inv(h, s, loose, uncounted) && slot in s.new_
    ensures s.new_[slot] in s.info && s.info[s.new_[slot]].nRefCount > 0 && s.new_[slot] !in loose
    ensures var t := Unreferenced(s, slot); var id := s.new_[slot];
            Inv(h, t, if t.info[id].nRefCount == 0 then loose + {id} else loose, uncounted)
  {
    hide RandomOk, AddrOk, NewTableOk, TriedTableOk, RefsOk, TriedIds, NewIds;
    var id := s.new_[slot];
    SlotHolds(h, s.info, s.new_, slot);
    var i := s.info[id].(nRefCount := s.info[id].nRefCount - 1);
    UpdateInfo(s.info, s.random, s.addr, id, i);
    UnreferenceTables(h, s.info, s.new_, s.tried, loose, slot, i);
    IdsKept(s.info, id, i);
  }

  /** One reference more: id enters a free slot. */
  function Referenced(s: State, slot: Slot, id: int): State
    requires id in s.info
  {
    s.(info := s.info[id := s.info[id].(nRefCount := s.info[id].nRefCount + 1)], new_ := s.new_[slot := id])
  }

  lemma ReferenceTables(h: Hashes, info: map<int, Info>, new_: Table, tried: Table, loose: set<int>, slot: Slot, id: int, i: Info)
    requires NewTableOk(h, info, new_) && TriedTableOk(h, info, tried) && RefsOk(info, new_, loose) && id in info && slot !in new_
    requires slot.0 < NEW_BUCKET_COUNT && slot.1 == h.BucketPosition(info[id], true, slot.0)
    requires !info[id].fInTried && info[id].nRefCount < NEW_BUCKETS_PER_ADDRESS && i == info[id].(nRefCount := info[id].nRefCount + 1)
    ensures var info' := info[id := i]; var new' := new_[slot := id];
            NewTableOk(h, info', new') && TriedTableOk(h, info', tried) && RefsOk(info', new', loose - {id})
  {
    SlotsAdded(new_, slot, id);
    var info' := info[id := i];
    forall x | x in info' && info'[x].fInTried
      ensures h.TriedSlot(info'[x]) in tried && tried[h.TriedSlot(info'[x])] == x
    {
      assert h.TriedSlot(info'[x]) == h.TriedSlot(info[x]);
    }
  }

  lemma CountAgain(info: map<int, Info>, uncounted: set<int>, id: int)
    requires id in info && !info[id].fInTried
    ensures |NewIds(info) - (uncounted - {id})| == |NewIds(info) - uncounted| + (if id in uncounted then 1 else 0)
  {
    if id in uncounted {
      assert NewIds(info) - (uncounted - {id}) == (NewIds(info) - uncounted) + {id};
    } else {
      assert uncounted - {id} == uncounted;
    }
  }

  /** An entry that was left out of nNew is counted again once it has its reference. */
  lemma ReferenceStep(h: Hashes, s: State, slot: Slot, id: int, loose: set<int>, uncounted: set<int>)
    requires Inv(h, s, loose, uncounted) && id in s.info && slot !in s.new_
    requires slot.0 < NEW_BUCKET_COUNT && slot.1 == h.BucketPosition(s.info[id], true, slot.0)
    requires !s.info[id].fInTried && s.info[id].nRefCount < NEW_BUCKETS_PER_ADDRESS
    ensures Inv(h, Referenced(s, slot, id).(nNew := s.nNew + if id in uncounted then 1 else 0), loose - {id}, uncounted - {id})
  {
    hide AddrOk, TablesOk, RandomOk;
    TablesRandom(h, s, loose, uncounted);
    FillTables(h, s, slot, id, loose, uncounted);
    UpdateInfo(s.info, s.random, s.addr, id, s.info[id].(nRefCount := s.info[id].nRefCount + 1));
  }

  lemma FillTables(h: Hashes, s: State, slot: Slot, id: int, loose: set<int>, uncounted: set<int>)
    requires TablesOk(h, s, loose, uncounted) && id in s.info && slot !in s.new_
    requires slot.0 < NEW_BUCKET_COUNT && slot.1 == h.BucketPosition(s.info[id], true, slot.0)
    requires !s.info[id].fInTried && s.info[id].nRefCount < NEW_BUCKETS_PER_ADDRESS
    ensures TablesOk(h, Referenced(s, slot, id).(nNew := s.nNew + if id in uncounted then 1 else 0), loose - {id}, uncounted - {id})
  {
    hide RandomOk, AddrOk, NewTableOk, TriedTableOk, RefsOk, TriedIds, NewIds;
    var i := s.info[id].(nRefCount := s.info[id].nRefCount + 1);
    UpdateInfo(s.info, s.random, s.addr, id, i);
    ReferenceTables(h, s.info, s.new_, s.tried, loose, slot, id, i);
    IdsKept(s.info, id, i);
    CountAgain(s.info, uncounted, id);
  }

  // ---- moving entries to and from the "tried" table ----

  lemma UncountStep(h: Hashes, s: State, id: int, loose: set<int>, uncounted: set<int>)
    requires Inv(h, s, loose, uncounted) && id in loose - uncounted
    ensures Inv(h, s.(nNew := s.nNew - 1), loose, uncounted + {id})
  {
    hide AddrOk, TablesOk;
    UncountTables(h, s, id, loose, uncounted);
  }

  lemma UncountTables(h: Hashes, s: State, id: int, loose: set<int>, uncounted: set<int>)
    requires TablesOk(h, s, loose, uncounted) && id in loose - uncounted
    ensures TablesOk(h, s.(nNew := s.nNew - 1), loose, uncounted + {id})
  {
    hide RandomOk, NewTableOk, TriedTableOk, RefsOk, TriedIds;
    LooseIsNew(s.info, s.new_, loose, id);
    assert NewIds(s.info) - (uncounted + {id}) == (NewIds(s.info) - uncounted) - {id};
  }

  /** The occupant of a "tried" slot leaves it. */
  function Evicted(s: State, slot: Slot): State
    requires slot in s.tried && s.tried[slot] in s.info
  {
    var id := s.tried[slot];
    s.(info := s.info[id := s.info[id].(fInTried := false)], tried := s.tried - {slot}, nTried := s.nTried - 1)
  }

  lemma EvictTables(h: Hashes, info: map<int, Info>, new_: Table, tried: Table, loose: set<int>, slot: Slot, id: int, i: Info)
    requires NewTableOk(h, info, new_) && TriedTableOk(h, info, tried) && RefsOk(info, new_, loose)
    requires slot in tried && id == tried[slot] && id in info && i == info[id].(fInTried := false)
    ensures var info' := info[id := i];
            && info[id].fInTried && id !in loose && i.nRefCount == 0
            && NewTableOk(h, info', new_) && TriedTableOk(h, info', tried - {slot}) && RefsOk(info', new_, loose + {id})
  {
    var info' := info[id := i];
    assert SlotsOf(new_, id) == {};
    forall s | s in tried - {slot}
      ensures tried[s] in info' && info'[tried[s]].fInTried && s == h.TriedSlot(info'[tried[s]])
    {
      var x := tried[s];
      assert x in info && s == h.TriedSlot(info[x]) && slot == h.TriedSlot(info[id]);
    }
    forall x | x in info' && info'[x].fInTried
      ensures h.TriedSlot(info'[x]) in tried - {slot} && tried[h.TriedSlot(info'[x])] == x
    {
      assert h.TriedSlot(info'[x]) == h.TriedSlot(info[x]) && tried[h.TriedSlot(info[x])] == x;
    }
  }

  lemma IdsEvicted(info: map<int, Info>, id: int, i: Info, uncounted: set<int>)
    requires id in info && info[id].fInTried && !i.fInTried
    ensures |TriedIds(info[id := i])| == |TriedIds(info)| - 1
    ensures NewIds(info[id := i]) - (uncounted + {id}) == NewIds(info) - uncounted - {id} == NewIds(info) - uncounted
  {
    assert TriedIds(info[id := i]) == TriedIds(info) - {id};
    assert id in TriedIds(info);
  }

  lemma EvictStep(h: Hashes, s: State, slot: Slot, loose: set<int>, uncounted: set<int>)
    requires Inv(h, s, loose, uncounted) && slot in s.tried
    ensures s.tried[slot] in s.info && s.info[s.tried[slot]].fInTried && s.info[s.tried[slot]].nRefCount == 0 && s.tried[slot] !in loose
    ensures slot == h.TriedSlot(s.info[s.tried[slot]])
    ensures Inv(h, Evicted(s, slot), loose + {s.tried[slot]}, uncounted + {s.tried[slot]})
  {
    hide RandomOk, AddrOk, NewTableOk, TriedTableOk, RefsOk, TriedIds, NewIds;
    var id := s.tried[slot];
    TriedSlotHolds(h, s.info, s.tried, slot);
    var i := s.info[id].(fInTried := false);
    UpdateInfo(s.info, s.random, s.addr, id, i);
    EvictTables(h, s.info, s.new_, s.tried, loose, slot, id, i);
    IdsEvicted(s.info, id, i, uncounted);
  }

  lemma TriedSlotHolds(h: Hashes, info: map<int, Info>, tried: Table, slot: Slot)
    requires TriedTableOk(h, info, tried) && slot in tried
    ensures tried[slot] in info && info[tried[slot]].fInTried && slot == h.TriedSlot(info[tried[slot]])
  {
  }

  /** A loose entry takes its own, free, "tried" slot. */
  function Tried(h: Hashes, s: State, id: int): State
    requires id in s.info
  {
    s.(info := s.info[id := s.info[id].(fInTried := true)], tried := s.tried[h.TriedSlot(s.info[id]) := id], nTried := s.nTried + 1)
  }

  lemma TryTables(h: Hashes, info: map<int, Info>, new_: Table, tried: Table, loose: set<int>, id: int, i: Info)
    requires NewTableOk(h, info, new_) && TriedTableOk(h, info, tried) && RefsOk(info, new_, loose)
    requires id in info && id in loose && h.TriedSlot(info[id]) !in tried && i == info[id].(fInTried := true)
    ensures var info' := info[id := i]; var tried' := tried[h.TriedSlot(info[id]) := id];
            NewTableOk(h, info', new_) && TriedTableOk(h, info', tried') && RefsOk(info', new_, loose - {id})
  {
    var info' := info[id := i];
    var tried' := tried[h.TriedSlot(info[id]) := id];
    assert h.TriedSlot(i) == h.TriedSlot(info[id]);
    assert SlotsOf(new_, id) == {};
    forall s | s in new_
      ensures new_[s] in info' && !info'[new_[s]].fInTried && s.1 == h.BucketPosition(info'[new_[s]], true, s.0)
    {
      assert s !in SlotsOf(new_, id);
    }
    forall x | x in info' && info'[x].fInTried
      ensures h.TriedSlot(info'[x]) in tried' && tried'[h.TriedSlot(info'[x])] == x
    {
      assert x != id ==> h.TriedSlot(info[x]) in tried && tried[h.TriedSlot(info[x])] == x;
    }
  }

  lemma IdsTried(info: map<int, Info>, id: int, i: Info, uncounted: set<int>)
    requires id in info && !info[id].fInTried && i.fInTried && id in uncounted
    ensures |TriedIds(info[id := i])| == |TriedIds(info)| + 1
    ensures NewIds(info[id := i]) - (uncounted - {id}) == NewIds(info) - uncounted
  {
    assert TriedIds(info[id := i]) == TriedIds(info) + {id};
  }

  lemma TryStep(h: Hashes, s: State, id: int, loose: set<int>, uncounted: set<int>)
    requires Inv(h, s, loose, uncounted) && id in uncounted && h.TriedSlot(s.info[id]) !in s.tried
    ensures Inv(h, Tried(h, s, id), loose - {id}, uncounted - {id})
  {
    hide AddrOk, RandomOk, NewTableOk, TriedTableOk, RefsOk, TriedIds, NewIds, Hashes.TriedSlot;
    TriedTables(h, s, id, loose, uncounted);
    UpdateInfo(s.info, s.random, s.addr, id, s.info[id].(fInTried := true));
  }

  lemma TriedTables(h: Hashes, s: State, id: int, loose: set<int>, uncounted: set<int>)
    requires TablesOk(h, s, loose, uncounted) && id in uncounted && h.TriedSlot(s.info[id]) !in s.tried
    ensures TablesOk(h, Tried(h, s, id), loose - {id}, uncounted - {id})
  {
    hide RandomOk, AddrOk, NewTableOk, TriedTableOk, RefsOk, TriedIds, NewIds;
    LooseIsNew(s.info, s.new_, loose, id);
    var i := s.info[id].(fInTried := true);
    UpdateInfo(s.info, s.random, s.addr, id, i);
    TryTables(h, s.info, s.new_, s.tried, loose, id, i);
    IdsTried(s.info, id, i, uncounted);
  }
}
