/** Which files load to consistent tables: exactly those in which no address that finds a place is repeated. */
module AddrReload {
  import opened AddrState
  import opened AddrMoves
  import opened AddrMan
  import opened AddrFile
  import opened AddrLoad

  // ---- loading keeps the tables consistent ----

  /** The entries that are in no table. */
  ghost function Loose(info: map<int, Info>): set<int> {
    set id | id in info && !info[id].fInTried && info[id].nRefCount == 0
  }

  /** The invariant while loading, whatever mapAddr is. */
  ghost predicate Loading(h: Hashes, s: State) {
    TablesOk(h, s, Loose(s.info), {})
  }

  /** mapAddr knows every address, and leads to an entry with it. */
  ghost predicate Known(info: map<int, Info>, addr: map<NetAddr, int>) {
    && (forall id :: id in info ==> info[id].address.service.ip in addr)
    && (forall a :: a in addr ==> addr[a] in info && info[addr[a]].address.service.ip == a)
  }

  lemma KnownAdded(info: map<int, Info>, addr: map<NetAddr, int>, id: int, i: Info)
    requires Known(info, addr) && id !in info
    ensures Known(info[id := i], addr[i.address.service.ip := id])
  {
  }

  lemma LooseAdded(info: map<int, Info>, id: int, i: Info)
    requires id !in info || id in Loose(info)
    ensures Loose(info[id := i]) == if !i.fInTried && i.nRefCount == 0 then Loose(info) + {id} else Loose(info) - {id}
  {
  }

  lemma NewEnteredStep(h: Hashes, s: State, r: Record)
    requires Loading(h, s) && Known(s.info, s.addr)
    ensures Loading(h, NewEntered(s, r)) && Known(NewEntered(s, r).info, NewEntered(s, r).addr)
  {
    hide TablesOk, Loose, Known;
    FreshInTables(h, s, Loose(s.info), {});
    var i := Restored(r).(nRandomPos := |s.random|);
    EnterTables(h, s, i, Loose(s.info), {});
    KnownAdded(s.info, s.addr, s.nIdCount, i);
    LooseAdded(s.info, s.nIdCount, i);
  }

  lemma TriedEnteredStep(h: Hashes, s: State, r: Record)
    requires Loading(h, s) && Known(s.info, s.addr)
    ensures Loading(h, TriedEntered(h, s, r)) && Known(TriedEntered(h, s, r).info, TriedEntered(h, s, r).addr)
  {
    hide Known, Loading;
    if h.TriedSlot(Restored(r)) !in s.tried {
      EnterTriedFree(h, s, r);
    }
  }

  lemma EnterTriedFree(h: Hashes, s: State, r: Record)
    requires Loading(h, s) && Known(s.info, s.addr) && h.TriedSlot(Restored(r)) !in s.tried
    ensures Loading(h, TriedEntered(h, s, r)) && Known(TriedEntered(h, s, r).info, TriedEntered(h, s, r).addr)
  {
    hide TablesOk, Loose, Hashes.TriedSlot, TriedEntered, Known;
    var id, loose := s.nIdCount, Loose(s.info);
    IdCount(h, s, loose);
    var i := Restored(r).(nRandomPos := |s.random|);
    EnterTables(h, s, i, loose, {});
    KnownAdded(s.info, s.addr, id, i.(fInTried := true));
    var t := Entered(s, i);
    assert t.(nNew := s.nNew + 1).(nNew := s.nNew + 1 - 1) == t;
    UncountTables(h, t.(nNew := s.nNew + 1), id, loose + {id}, {});
    assert {} + {id} == {id} && {id} - {id} == {};
    TriedEnteredIs(h, s, r);
    TriedTables(h, t, id, loose + {id}, {id});
    LooseAdded(s.info, id, i.(fInTried := true));
    assert loose + {id} - {id} == loose - {id};
  }

  lemma TriedEnteredIs(h: Hashes, s: State, r: Record)
    requires s.nIdCount >= 0 && h.TriedSlot(Restored(r)) !in s.tried
    ensures var i := Restored(r).(nRandomPos := |s.random|); var t := Entered(s, i);
            && h.TriedSlot(i) == h.TriedSlot(Restored(r)) && t.tried == s.tried
            && TriedEntered(h, s, r) == Tried(h, t, s.nIdCount)
            && TriedEntered(h, s, r).info == s.info[s.nIdCount := i.(fInTried := true)]
            && TriedEntered(h, s, r).addr == s.addr[i.address.service.ip := s.nIdCount]
  {
    var i := Restored(r).(nRandomPos := |s.random|);
    assert h.TriedSlot(i) == h.TriedSlot(Restored(r));
    assert TriedEntered(h, s, r).info == Tried(h, Entered(s, i), s.nIdCount).info;
  }

  lemma IdCount(h: Hashes, s: State, loose: set<int>)
    requires TablesOk(h, s, loose, {})
    ensures s.nIdCount >= 0 && s.nIdCount !in s.info && s.nIdCount !in loose
  {
  }

  ghost function Ips(rs: seq<Record>): set<NetAddr> {
    set i | 0 <= i < |rs| :: rs[i].address.service.ip
  }

  ghost predicate DistinctIps(rs: seq<Record>) {
    forall i, j :: 0 <= i < j < |rs| ==> rs[i].address.service.ip != rs[j].address.service.ip
  }

  lemma IpsLast(rs: seq<Record>)
    requires rs != []
    ensures var p, r := rs[..|rs| - 1], rs[|rs| - 1];
            Ips(rs) == Ips(p) + {r.address.service.ip} && (DistinctIps(rs) ==> DistinctIps(p) && r.address.service.ip !in Ips(p))
  {
    var p, r := rs[..|rs| - 1], rs[|rs| - 1];
    forall x
      ensures x in Ips(rs) <==> x in Ips(p) + {r.address.service.ip}
    {
      if x in Ips(rs) {
        var i :| 0 <= i < |rs| && rs[i].address.service.ip == x;
        assert i < |p| ==> p[i].address.service.ip == x;
      }
      if x in Ips(p) {
        var i :| 0 <= i < |p| && p[i].address.service.ip == x;
        assert rs[i].address.service.ip == x;
      }
    }
  }

  lemma {:induction false} EnterNewLoading(h: Hashes, rs: seq<Record>)
    ensures Loading(h, EnterNew(rs)) && Known(EnterNew(rs).info, EnterNew(rs).addr)
  {
    hide Loading, Known;
    if rs == [] {
      NoEntries(h);
    } else {
      EnterNewLoading(h, rs[..|rs| - 1]);
      NewEnteredStep(h, EnterNew(rs[..|rs| - 1]), rs[|rs| - 1]);
    }
  }

  lemma NoEntries(h: Hashes)
    ensures Loading(h, EMPTY) && Known(EMPTY.info, EMPTY.addr) && AddrOk(EMPTY.info, EMPTY.addr)
  {
    EmptyConsistent(h);
    assert Loose(EMPTY.info) == {};
  }

  lemma {:induction false} EnterTriedLoading(h: Hashes, s: State, rs: seq<Record>)
    requires Loading(h, s) && Known(s.info, s.addr)
    ensures Loading(h, EnterTried(h, s, rs)) && Known(EnterTried(h, s, rs).info, EnterTried(h, s, rs).addr)
  {
    hide Loading, Known;
    if rs != [] {
      EnterTriedLoading(h, s, rs[..|rs| - 1]);
      TriedEnteredStep(h, EnterTried(h, s, rs[..|rs| - 1]), rs[|rs| - 1]);
    }
  }

  /** Distinct addresses keep mapAddr the inverse of mapInfo. */
  lemma {:induction false} EnterNewAddr(h: Hashes, rs: seq<Record>)
    requires DistinctIps(rs)
    ensures AddrOk(EnterNew(rs).info, EnterNew(rs).addr) && EnterNew(rs).addr.Keys == Ips(rs)
  {
    hide DistinctIps, Ips, AddrOk;
    if rs == [] {
      NoEntries(h);
      assert Ips(rs) == {} by { NoIps(rs); }
    } else {
      IpsLast(rs);
      EnterNewAddr(h, rs[..|rs| - 1]);
      EnterNewSound(rs[..|rs| - 1]);
      var s := EnterNew(rs[..|rs| - 1]);
      CreateAddr(s.info, s.addr, s.nIdCount, Restored(rs[|rs| - 1]).(nRandomPos := |s.random|));
    }
  }

  lemma NoIps(rs: seq<Record>)
    requires rs == []
    ensures Ips(rs) == {}
  {
  }

  lemma {:induction false} EnterTriedAddr(h: Hashes, s: State, rs: seq<Record>)
    requires Sound(s) && AddrOk(s.info, s.addr) && DistinctIps(rs) && Ips(rs) !! s.addr.Keys
    ensures var t := EnterTried(h, s, rs); AddrOk(t.info, t.addr) && t.addr.Keys <= s.addr.Keys + Ips(rs)
  {
    hide DistinctIps, Ips, AddrOk, Hashes.TriedSlot, RandomOk;
    if rs != [] {
      IpsLast(rs);
      EnterTriedAddr(h, s, rs[..|rs| - 1]);
      EnterTriedSound(h, s, rs[..|rs| - 1]);
      var t, i := EnterTried(h, s, rs[..|rs| - 1]), Restored(rs[|rs| - 1]);
      if h.TriedSlot(i) !in t.tried {
        CreateAddr(t.info, t.addr, t.nIdCount, i.(nRandomPos := |t.random|, fInTried := true));
      }
    }
  }

  lemma FiledOneStep(h: Hashes, s: State, n: int, bucket: nat, same: bool)
    requires Loading(h, s) && n in Loose(s.info) && (same ==> bucket < NEW_BUCKET_COUNT)
    ensures Loading(h, FiledOne(h, s, n, bucket, same))
  {
    hide TablesOk;
    var slot := (bucket, h.BucketPosition(s.info[n], true, bucket));
    var home := HomeSlot(h, s.info[n]);
    if same && slot !in s.new_ {
      FiledReference(h, s, slot, n);
    } else if home !in s.new_ {
      FiledReference(h, s, home, n);
    }
  }

  lemma FiledReference(h: Hashes, s: State, slot: Slot, n: int)
    requires Loading(h, s) && n in Loose(s.info) && slot !in s.new_
    requires slot.0 < NEW_BUCKET_COUNT && slot.1 == h.BucketPosition(s.info[n], true, slot.0)
    ensures Loading(h, Referenced(s, slot, n))
  {
    FillTables(h, s, slot, n, Loose(s.info), {});
    hide TablesOk;
    LooseAdded(s.info, n, s.info[n].(nRefCount := s.info[n].nRefCount + 1));
    assert Referenced(s, slot, n).(nNew := s.nNew + 0) == Referenced(s, slot, n);
    assert {} - {n} == {};
  }

  lemma FiledOneOthers(h: Hashes, s: State, n: int, bucket: nat, same: bool)
    requires n in s.info
    ensures var t := FiledOne(h, s, n, bucket, same);
            && t.info.Keys == s.info.Keys && (forall k :: k in s.info && k != n ==> t.info[k] == s.info[k])
            && t.info[n].address == s.info[n].address && t.addr == s.addr && t.nTried == s.nTried && t.nNew == s.nNew
  {
  }

  /** The same entries, with the same addresses. */
  ghost predicate SameIps(a: map<int, Info>, b: map<int, Info>) {
    a.Keys == b.Keys && forall id :: id in a && id in b ==> a[id].address == b[id].address
  }

  lemma {:induction false} FiledLoading(h: Hashes, s: State, n: nat, homes: map<int, nat>, same: bool)
    requires Loading(h, s) && (forall k :: 0 <= k < n ==> k in s.info && k in Loose(s.info))
    requires same ==> forall k :: k in homes ==> homes[k] < NEW_BUCKET_COUNT
    ensures var t := Filed(h, s, n, homes, same);
            && Loading(h, t) && (forall k :: k in s.info && !(0 <= k < n) ==> t.info[k] == s.info[k])
            && SameIps(s.info, t.info) && t.addr == s.addr && t.nTried == s.nTried && t.nNew == s.nNew
  {
    hide Loading, Loose, FiledOne;
    if n > 0 {
      FiledLoading(h, s, n - 1, homes, same);
      var u := Filed(h, s, n - 1, homes, same);
      LooseAt(s.info, n - 1);
      LooseAt(u.info, n - 1);
      FiledOneStep(h, u, n - 1, HomeOf(homes, n - 1), same);
      FiledOneOthers(h, u, n - 1, HomeOf(homes, n - 1), same);
    }
  }

  /** The entries below n that have no place are gone, and so are their addresses. */
  ghost predicate PrunedTo(s: State, t: State, n: nat) {
    && t.info.Keys == s.info.Keys - LooseBelow(s.info, n)
    && (forall id :: id in t.info && id in s.info ==> t.info[id] == s.info[id].(nRandomPos := t.info[id].nRandomPos))
    && t.addr == s.addr - IpsOf(s.info, LooseBelow(s.info, n)) && t.nTried == s.nTried
  }

  ghost function LooseBelow(info: map<int, Info>, n: nat): set<int> {
    set id | id in Loose(info) && 0 <= id < n
  }

  ghost function IpsOf(info: map<int, Info>, ids: set<int>): set<NetAddr> {
    set id | id in ids && id in info :: info[id].address.service.ip
  }

  lemma {:induction false} PrunedLoading(h: Hashes, s: State, n: nat)
    requires Loading(h, s) && RandomOk(s.info, s.random)
    ensures Loading(h, Pruned(s, n)) && PrunedTo(s, Pruned(s, n), n)
  {
    hide RandomOk, Loading, Deleted, Loose, PrunedTo;
    if n == 0 {
      NothingPruned(s);
    } else {
      PrunedLoading(h, s, n - 1);
      var t := Pruned(s, n - 1);
      LooseAt(t.info, n - 1);
      PrunedMore(h, s, t, n - 1);
    }
  }

  lemma NothingPruned(s: State)
    ensures PrunedTo(s, s, 0)
  {
    assert LooseBelow(s.info, 0) == {} && IpsOf(s.info, {}) == {};
  }

  lemma PrunedMore(h: Hashes, s: State, t: State, n: nat)
    requires Loading(h, t) && RandomOk(t.info, t.random) && PrunedTo(s, t, n)
    ensures n in Loose(s.info) <==> n in Loose(t.info)
    ensures n in Loose(t.info) ==> Loading(h, Deleted(t, n)) && PrunedTo(s, Deleted(t, n), n + 1)
    ensures n !in Loose(t.info) ==> PrunedTo(s, t, n + 1)
  {
    hide RandomOk, Loading, Deleted, Loose;
    LooseAt(t.info, n);
    LooseAt(s.info, n);
    assert n !in LooseBelow(s.info, n);
    if n in Loose(t.info) {
      DeleteLoose(h, t, n);
      assert LooseBelow(s.info, n + 1) == LooseBelow(s.info, n) + {n};
      assert IpsOf(s.info, LooseBelow(s.info, n + 1)) == IpsOf(s.info, LooseBelow(s.info, n)) + {s.info[n].address.service.ip};
    } else {
      assert LooseBelow(s.info, n + 1) == LooseBelow(s.info, n);
    }
  }

  lemma LooseAt(info: map<int, Info>, id: int)
    ensures id in Loose(info) <==> id in info && !info[id].fInTried && info[id].nRefCount == 0
  {
  }

  lemma DeleteLoose(h: Hashes, s: State, id: int)
    requires Loading(h, s) && RandomOk(s.info, s.random) && id in Loose(s.info) && id in s.info
    ensures Loading(h, Deleted(s, id)) && Loose(Deleted(s, id).info) == Loose(s.info) - {id}
    ensures Deleted(s, id).info.Keys == s.info.Keys - {id} && OnlyMoved(s.info - {id}, Deleted(s, id).info)
    ensures Deleted(s, id).addr == s.addr - {s.info[id].address.service.ip} && Deleted(s, id).nTried == s.nTried
  {
    hide TablesOk, Deleted;
    DeleteTables(h, s, id, Loose(s.info), {});
    var d := Deleted(s, id).info;
    forall x
      ensures x in Loose(d) <==> x in Loose(s.info) - {id}
    {
      assert x in d <==> x in s.info - {id};
    }
    assert Loose(d) == Loose(s.info) - {id};
  }

  /** No address that found a place is repeated: two entries with one address have both found none. */
  ghost predicate RepeatsLoose(info: map<int, Info>) {
    forall i, j :: i in info && j in info && i != j && info[i].address.service.ip == info[j].address.service.ip ==>
      i in Loose(info) && j in Loose(info)
  }

  /** Then, and only then, mapAddr ends up as the inverse of mapInfo. */
  lemma PrunedAddr(s: State, t: State, n: nat)
    requires Known(s.info, s.addr) && PrunedTo(s, t, n) && LooseBelow(s.info, n) == Loose(s.info)
    ensures AddrOk(t.info, t.addr) <==> RepeatsLoose(s.info)
  {
    hide Loose, LooseBelow;
    var gone := Loose(s.info);
    if RepeatsLoose(s.info) {
      RepeatsGone(s, t, n);
    }
    if AddrOk(t.info, t.addr) {
      forall i, j | i in s.info && j in s.info && i != j && s.info[i].address.service.ip == s.info[j].address.service.ip
        ensures i in gone
      {
        assert i !in gone ==> i in t.info;
        assert j !in gone ==> j in t.info;
        assert j in gone ==> s.info[j].address.service.ip in IpsOf(s.info, gone);
      }
    }
  }

  lemma RepeatsGone(s: State, t: State, n: nat)
    requires Known(s.info, s.addr) && PrunedTo(s, t, n) && LooseBelow(s.info, n) == Loose(s.info) && RepeatsLoose(s.info)
    ensures AddrOk(t.info, t.addr)
  {
    hide Loose, LooseBelow;
    var gone := Loose(s.info);
    forall id | id in t.info
      ensures t.info[id].address.service.ip in t.addr && t.addr[t.info[id].address.service.ip] == id
    {
      var ip := s.info[id].address.service.ip;
      assert id in s.info && id !in gone;
      assert ip !in IpsOf(s.info, gone);
      assert s.addr[ip] in s.info;
    }
    forall a | a in t.addr
      ensures t.addr[a] in t.info && t.info[t.addr[a]].address.service.ip == a
    {
      var id := s.addr[a];
      assert id in s.info && s.info[id].address.service.ip == a;
      assert id in gone ==> a in IpsOf(s.info, gone);
    }
  }

  /** The entries with the places they found, before those without one are dropped. */
  ghost function Placed(h: Hashes, f: File, asmapVersion: nat): State
    requires !Rejected(f)
  {
    EntriesSound(h, f);
    Filed(h, Entries(h, f), Count(f.nNew), FileHomes(f), SameBuckets(f, asmapVersion))
  }

  /** What loading always achieves. */
  lemma LoadedTables(h: Hashes, f: File, asmapVersion: nat)
    requires !Rejected(f) && f.nNew >= 0 && f.nTried >= 0
    ensures var s, t := Placed(h, f, asmapVersion), Load(h, f, asmapVersion).state;
            && TablesOk(h, t, {}, {}) && PrunedTo(s, t, f.nNew) && LooseBelow(s.info, f.nNew) == Loose(s.info)
            && Known(s.info, s.addr) && SameIps(Entries(h, f).info, s.info) && s.addr == Entries(h, f).addr
  {
    hide Loading, Loose, RandomOk, TablesOk, Filed, Pruned, EnterTried, PrunedTo, Known, SameIps;
    EntriesLoading(h, f);
    EntriesSound(h, f);
    var s, n, homes, same := Entries(h, f), f.nNew, FileHomes(f), SameBuckets(f, asmapVersion);
    HomesBelow(f.buckets[..Count(BucketCount(f))], n, Count(BucketCount(f)));
    FiledLoading(h, s, n, homes, same);
    FiledSound(h, s, n, homes, same);
    var t := Filed(h, s, n, homes, same);
    SameKnown(s.info, t.info, s.addr);
    PrunedLoading(h, t, n);
    forall k | k in Loose(t.info)
      ensures 0 <= k < n
    {
      LooseAt(t.info, k);
      LooseAt(s.info, k);
      SameAt(s.info, t.info, k);
    }
    assert LooseBelow(t.info, n) == Loose(t.info);
    NothingLoose(h, t, Pruned(t, n), n);
  }

  lemma SameAt(a: map<int, Info>, b: map<int, Info>, k: int)
    requires SameIps(a, b)
    ensures k in a <==> k in b
  {
    assert k in a.Keys <==> k in b.Keys;
  }

  lemma SameKnown(a: map<int, Info>, b: map<int, Info>, addr: map<NetAddr, int>)
    requires SameIps(a, b) && Known(a, addr)
    ensures Known(b, addr)
  {
    forall x | x in addr
      ensures addr[x] in b && b[addr[x]].address.service.ip == x
    {
      var id := addr[x];
      assert id in a.Keys && id in b.Keys;
    }
    forall id | id in b
      ensures b[id].address.service.ip in addr
    {
      assert id in b.Keys && id in a.Keys;
    }
  }

  lemma NothingLoose(h: Hashes, s: State, t: State, n: nat)
    requires Loading(h, t) && PrunedTo(s, t, n) && LooseBelow(s.info, n) == Loose(s.info)
    ensures TablesOk(h, t, {}, {})
  {
    forall k
      ensures k !in Loose(t.info)
    {
      if k in t.info {
        assert k in s.info && k !in Loose(s.info);
      }
    }
    assert Loose(t.info) == {};
  }

  /**
   * Whatever the hashes, and so also after a change of the asmap, the tables are consistent if and only if the counts are
   * natural and no address that finds a place is repeated.
   */
  lemma LoadExactly(h: Hashes, f: File, asmapVersion: nat)
    requires !Rejected(f)
    ensures Load(h, f, asmapVersion).Loaded?
    ensures Consistent(h, Load(h, f, asmapVersion).state) <==>
              f.nNew >= 0 && f.nTried >= 0 && RepeatsLoose(Placed(h, f, asmapVersion).info)
  {
    hide TablesOk, RandomOk, AddrOk, PrunedTo, Known, RepeatsLoose, Placed, SameIps, Loose, LooseBelow;
    if f.nNew >= 0 && f.nTried >= 0 {
      LoadedTables(h, f, asmapVersion);
      PrunedAddr(Placed(h, f, asmapVersion), Load(h, f, asmapVersion).state, f.nNew);
    } else {
      NegativeCounts(h, f, asmapVersion);
    }
  }

  lemma NegativeCounts(h: Hashes, f: File, asmapVersion: nat)
    requires !Rejected(f) && (f.nNew < 0 || f.nTried < 0)
    ensures !Consistent(h, Load(h, f, asmapVersion).state)
  {
    hide RandomOk, AddrOk, NewTableOk, TriedTableOk, RefsOk, Filed, Pruned, EnterNew;
    EntriesSound(h, f);
    var s := Entries(h, f);
    FiledSound(h, s, Count(f.nNew), FileHomes(f), SameBuckets(f, asmapVersion));
    var t := Filed(h, s, Count(f.nNew), FileHomes(f), SameBuckets(f, asmapVersion));
    FiledCounts(h, s, Count(f.nNew), FileHomes(f), SameBuckets(f, asmapVersion));
    PrunedCounts(t, Count(f.nNew));
    EnterTriedSound(h, Listed(f), TriedPart(f));
  }

  lemma {:induction false} FiledCounts(h: Hashes, s: State, n: nat, homes: map<int, nat>, same: bool)
    requires forall k :: 0 <= k < n ==> k in s.info
    ensures Filed(h, s, n, homes, same).nNew == s.nNew && Filed(h, s, n, homes, same).nTried == s.nTried
  {
    hide FiledOne;
    if n > 0 {
      FiledCounts(h, s, n - 1, homes, same);
      FiledOneOthers(h, Filed(h, s, n - 1, homes, same), n - 1, HomeOf(homes, n - 1), same);
    }
  }

  lemma {:induction false} PrunedCounts(s: State, n: nat)
    requires RandomOk(s.info, s.random)
    ensures Pruned(s, n).nTried == s.nTried && (n == 0 ==> Pruned(s, n).nNew == s.nNew)
  {
    hide RandomOk;
    if n > 0 {
      PrunedCounts(s, n - 1);
      DeletedCount(Pruned(s, n - 1), n - 1);
    }
  }

  lemma DeletedCount(s: State, id: int)
    requires RandomOk(s.info, s.random)
    ensures id in s.info ==> Deleted(s, id).nTried == s.nTried
  {
  }

  /** In particular a file with distinct addresses and natural counts gives consistent tables. */
  lemma LoadConsistent(h: Hashes, f: File, asmapVersion: nat)
    requires !Rejected(f) && f.nNew >= 0 && f.nTried >= 0 && DistinctIps(NewPart(f) + TriedPart(f))
    ensures Load(h, f, asmapVersion).Loaded? && Consistent(h, Load(h, f, asmapVersion).state)
  {
    hide TablesOk, AddrOk, PrunedTo, Known, RepeatsLoose, Placed, SameIps, Loose, LooseBelow, DistinctIps;
    LoadedTables(h, f, asmapVersion);
    EntriesAddr(h, f);
    NoRepeats(Entries(h, f).info, Placed(h, f, asmapVersion).info, Entries(h, f).addr);
    LoadExactly(h, f, asmapVersion);
  }

  lemma NoRepeats(a: map<int, Info>, b: map<int, Info>, addr: map<NetAddr, int>)
    requires AddrOk(a, addr) && SameIps(a, b)
    ensures RepeatsLoose(b)
  {
    hide Loose;
    forall i, j | i in b && j in b && b[i].address.service.ip == b[j].address.service.ip
      ensures i == j
    {
      assert i in b.Keys && j in b.Keys && i in a.Keys && j in a.Keys;
    }
  }

  lemma DistinctParts(a: seq<Record>, b: seq<Record>)
    requires DistinctIps(a + b)
    ensures DistinctIps(a) && DistinctIps(b) && Ips(a) !! Ips(b)
  {
    var c := a + b;
    assert forall i :: 0 <= i < |a| ==> c[i] == a[i];
    assert forall i :: 0 <= i < |b| ==> c[|a| + i] == b[i];
  }

  lemma EntriesLoading(h: Hashes, f: File)
    requires !Rejected(f) && f.nNew >= 0 && f.nTried >= 0
    ensures Loading(h, Entries(h, f)) && Known(Entries(h, f).info, Entries(h, f).addr)
    ensures forall k :: k in Loose(Entries(h, f).info) <==> 0 <= k < f.nNew
  {
    hide Loading, Known, RandomOk, EnterTried;
    var a, b := NewPart(f), TriedPart(f);
    EnterNewLoading(h, a);
    EnterNewSound(a);
    assert Listed(f) == EnterNew(a);
    EnterTriedLoading(h, Listed(f), b);
    EnterNewInfo(a);
    EnterTriedKinds(h, Listed(f), b);
  }

  lemma EntriesAddr(h: Hashes, f: File)
    requires !Rejected(f) && f.nNew >= 0 && f.nTried >= 0 && DistinctIps(NewPart(f) + TriedPart(f))
    ensures AddrOk(Entries(h, f).info, Entries(h, f).addr)
  {
    hide DistinctIps, Ips, AddrOk, RandomOk, EnterTried;
    var a, b := NewPart(f), TriedPart(f);
    DistinctParts(a, b);
    EnterNewAddr(h, a);
    EnterNewSound(a);
    assert Listed(f) == EnterNew(a);
    EnterTriedAddr(h, Listed(f), b);
  }

  lemma {:induction false} EnterNewInfo(rs: seq<Record>)
    ensures var s := EnterNew(rs);
            forall k :: k in s.info <==> 0 <= k < |rs|
    ensures var s := EnterNew(rs);
            |s.random| == |rs| == s.nIdCount && forall k :: 0 <= k < |rs| ==> s.info[k] == Restored(rs[k]).(nRandomPos := k)
  {
    if rs != [] {
      EnterNewInfo(rs[..|rs| - 1]);
    }
  }

  /** The entries that loading "tried" records adds are "tried", and follow the others. */
  lemma {:induction false} EnterTriedKinds(h: Hashes, s: State, rs: seq<Record>)
    requires Sound(s)
    ensures var t := EnterTried(h, s, rs);
            && Sound(t) && s.nIdCount <= t.nIdCount
            && (forall k :: k in s.info ==> k in t.info && t.info[k] == s.info[k])
            && (forall k :: k in t.info && k !in s.info ==> t.info[k].fInTried)
  {
    hide RandomOk;
    if rs != [] {
      EnterTriedKinds(h, s, rs[..|rs| - 1]);
      TriedEnteredSound(h, EnterTried(h, s, rs[..|rs| - 1]), rs[|rs| - 1]);
    }
  }

  /** An accepted file, whatever the hashes, that does not load to consistent tables: one record written twice. */
  lemma RepeatedRecord(h: Hashes, r: Record, asmapVersion: nat)
    ensures var f := File(1, 32, 2, 0, BIT30, [r, r], [], [], 0);
            !Rejected(f) && Load(h, f, asmapVersion).Loaded? && !Consistent(h, Load(h, f, asmapVersion).state)
  {
    hide Consistent, Load, Filed;
    var f := File(1, 32, 2, 0, BIT30, [r, r], [], [], 0);
    assert BucketCount(f) == 0;
    LoadExactly(h, f, asmapVersion);
    var rs := NewPart(f);
    assert rs == [r, r];
    EnterNewInfo(rs);
    EnterNewSound(rs);
    var s := Entries(h, f);
    assert s == EnterNew(rs) by { assert TriedPart(f) == []; }
    TwiceFiled(h, s, FileHomes(f));
    var info := Placed(h, f, asmapVersion).info;
    assert 0 in info && 1 in info && info[0].address == info[1].address && 0 !in Loose(info);
  }

  lemma TwiceFiled(h: Hashes, s: State, homes: map<int, nat>)
    requires 0 in s.info && 1 in s.info && s.new_ == map[] && s.info[0].nRefCount == 0 && (forall k :: 0 <= k < 2 ==> k in s.info)
    ensures var t := Filed(h, s, 2, homes, false);
            t.info[0].nRefCount == 1 && t.info[0].address == s.info[0].address && t.info[1].address == s.info[1].address
  {
    hide HomeSlot;
    assert Filed(h, s, 0, homes, false) == s;
    var u := Filed(h, s, 1, homes, false);
    assert u == FiledOne(h, s, 0, HomeOf(homes, 0), false) == Referenced(s, HomeSlot(h, s.info[0]), 0);
    assert Filed(h, s, 2, homes, false) == FiledOne(h, u, 1, HomeOf(homes, 1), false);
  }

  // ---- the format, and where entries go ----

  /** The header of a file: format 2, a key of 32 bytes, and 1024 buckets with bit 30 flipped. */
  lemma Header(s: State, asmapVersion: nat)
    requires s.nIdCount >= 0
    ensures var f := Dump(s, asmapVersion);
            && f.nVersion == 2 && f.nKeySize == 32 && f.nUBuckets == 0x4000_0400 && |f.buckets| == 1024 && f.asmapVersion == asmapVersion
            && f.nNew == s.nNew && f.nTried == s.nTried
  {
  }

  /** What is rejected: other keys, more than 65536 or 16384 entries, and streams that are too short; bit 30 of the bucket
      count is flipped from version 1 on. */
  lemma RejectedExactly(f: File)
    ensures Rejected(f) <==>
              || f.nKeySize != 32 || f.nNew > 65536 || f.nTried > 16384 || |f.newRecords| < f.nNew || |f.triedRecords| < f.nTried
              || |f.buckets| < (if f.nVersion == 0 then f.nUBuckets else if f.nUBuckets / 0x4000_0000 % 2 == 1 then f.nUBuckets - 0x4000_0000 else f.nUBuckets + 0x4000_0000)
  {
  }

  /** The entry k is the first one with its home slot. */
  ghost predicate FirstHome(h: Hashes, info: map<int, Info>, k: int) {
    k in info && forall j :: 0 <= j < k && j in info ==> HomeSlot(h, info[j]) != HomeSlot(h, info[k])
  }

  /** The first n entries have tried for their home slots: each slot has gone to the first that leads to it. */
  ghost predicate HomesGiven(h: Hashes, s: State, t: State, n: nat) {
    && t.info.Keys == s.info.Keys
    && (forall k :: 0 <= k < n && k in s.info && k in t.info ==> t.info[k] == s.info[k].(nRefCount := if FirstHome(h, s.info, k) then 1 else 0))
    && (forall k :: !(0 <= k < n) && k in s.info && k in t.info ==> t.info[k] == s.info[k])
    && (forall x :: x in t.new_ ==> 0 <= t.new_[x] < n && t.new_[x] in s.info && HomeSlot(h, s.info[t.new_[x]]) == x && FirstHome(h, s.info, t.new_[x]))
    && (forall k :: 0 <= k < n && k in s.info ==> HomeSlot(h, s.info[k]) in t.new_)
  }

  lemma FirstIfFree(h: Hashes, s: State, t: State, k: nat)
    requires HomesGiven(h, s, t, k) && k in s.info
    ensures HomeSlot(h, s.info[k]) !in t.new_ <==> FirstHome(h, s.info, k)
  {
    hide HomeSlot;
    var x := HomeSlot(h, s.info[k]);
    if x in t.new_ {
      var j := t.new_[x];
      assert 0 <= j < k && j in s.info && HomeSlot(h, s.info[j]) == x;
    }
  }

  lemma HomeGiven(h: Hashes, s: State, t: State, k: nat, bucket: nat)
    requires HomesGiven(h, s, t, k) && k in s.info && k in t.info && s.info[k].nRefCount == 0
    ensures HomesGiven(h, s, FiledOne(h, t, k, bucket, false), k + 1)
  {
    hide HomeSlot, FirstHome;
    FirstIfFree(h, s, t, k);
    assert t.info[k] == s.info[k];
  }

  lemma NoneGiven(h: Hashes, s: State)
    requires s.new_ == map[]
    ensures HomesGiven(h, s, s, 0)
  {
  }

  /**
   * When the buckets of the file are not used, because the asmap or the version differs, every entry tries for the slot that
   * its source leads to, and of those that share one exactly the first gets it.
   */
  lemma {:induction false} FiledFirst(h: Hashes, s: State, n: nat, homes: map<int, nat>)
    requires s.new_ == map[] && forall k :: 0 <= k < n ==> k in s.info && s.info[k].nRefCount == 0
    ensures HomesGiven(h, s, Filed(h, s, n, homes, false), n)
  {
    hide FiledOne, FirstHome, HomeSlot, HomesGiven;
    if n == 0 {
      NoneGiven(h, s);
    } else {
      FiledFirst(h, s, n - 1, homes);
      assert n - 1 in s.info.Keys;
      HomeGiven(h, s, Filed(h, s, n - 1, homes, false), n - 1, HomeOf(homes, n - 1));
    }
  }

  ghost predicate FirstSlot(h: Hashes, rs: seq<Record>, i: nat) {
    i < |rs| && forall j :: 0 <= j < i ==> h.TriedSlot(Restored(rs[j])) != h.TriedSlot(Restored(rs[i]))
  }

  /** The entry is as the record says, in the "tried" table. */
  ghost predicate FromRecord(i: Info, r: Record) {
    i == Info(r.address, r.source, 0, r.nLastSuccess, r.nAttempts, 0, true, i.nRandomPos)
  }

  /** A record whose slot is free when it is read stays in it, with what it says. */
  lemma {:induction false} TriedFirst(h: Hashes, s: State, rs: seq<Record>, i: nat)
    requires s.tried == map[] && Sound(s) && s.nIdCount >= 0 && FirstSlot(h, rs, i)
    ensures var t, slot := EnterTried(h, s, rs), h.TriedSlot(Restored(rs[i]));
            Sound(t) && slot in t.tried && t.tried[slot] in t.info && FromRecord(t.info[t.tried[slot]], rs[i])
    decreases |rs|
  {
    hide Hashes.TriedSlot, RandomOk;
    var p, r := rs[..|rs| - 1], rs[|rs| - 1];
    EnterTriedSound(h, s, p);
    var u := EnterTried(h, s, p);
    TriedEnteredSound(h, u, r);
    if i < |p| {
      assert FirstSlot(h, p, i) && p[i] == rs[i];
      TriedFirst(h, s, p, i);
    } else {
      SlotsFrom(h, s, p);
      assert h.TriedSlot(Restored(r)) !in u.tried by {
        assert forall j :: 0 <= j < |p| ==> p[j] == rs[j];
      }
    }
  }

  /** Only the slots of records are taken. */
  lemma {:induction false} SlotsFrom(h: Hashes, s: State, rs: seq<Record>)
    requires s.tried == map[]
    ensures forall x :: x in EnterTried(h, s, rs).tried ==> exists j :: 0 <= j < |rs| && h.TriedSlot(Restored(rs[j])) == x
  {
    hide Hashes.TriedSlot;
    if rs != [] {
      var p := rs[..|rs| - 1];
      SlotsFrom(h, s, p);
      forall x | x in EnterTried(h, s, rs).tried
        ensures exists j :: 0 <= j < |rs| && h.TriedSlot(Restored(rs[j])) == x
      {
        if x in EnterTried(h, s, p).tried {
          var j :| 0 <= j < |p| && h.TriedSlot(Restored(p[j])) == x;
          assert rs[j] == p[j];
        } else {
          assert h.TriedSlot(Restored(rs[|p|])) == x;
        }
      }
    }
  }
}
