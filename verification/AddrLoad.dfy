/** Reading the address manager back from disk (Unserialize of src/addrman.h), for any file. */
module AddrLoad {
  import opened AddrState
  import opened AddrMoves
  import opened AddrMan
  import opened AddrFile

  datatype Outcome = Loaded(state: State) | Failure

  function Count(n: int): nat {
    if n < 0 then 0 else n
  }

  /** What every stage of loading keeps, even for a damaged file: vRandom lists the ids, and the next id is unused. */
  ghost predicate Sound(s: State) {
    RandomOk(s.info, s.random) && forall id :: id in s.info ==> id < s.nIdCount
  }

  // ---- the stages ----

  function NewEntered(s: State, r: Record): State {
    Entered(s, Restored(r).(nRandomPos := |s.random|)).(nNew := s.nNew + 1)
  }

  /** The entries of the "new" table, not yet in any bucket. */
  function EnterNew(rs: seq<Record>): State {
    if rs == [] then EMPTY else NewEntered(EnterNew(rs[..|rs| - 1]), rs[|rs| - 1])
  }

  function WithSlot(t: Table, slot: Slot, id: int): Table {
    if id == -1 then t - {slot} else t[slot := id]
  }

  /** An entry of the "tried" table; it is lost when its slot is taken. */
  function TriedEntered(h: Hashes, s: State, r: Record): State {
    var slot := h.TriedSlot(Restored(r));
    if slot in s.tried then s else
      Entered(s, Restored(r).(nRandomPos := |s.random|, fInTried := true)).
      (tried := WithSlot(s.tried, slot, s.nIdCount), nTried := s.nTried + 1)
  }

  function EnterTried(h: Hashes, s: State, rs: seq<Record>): State {
    if rs == [] then s else TriedEntered(h, EnterTried(h, s, rs[..|rs| - 1]), rs[|rs| - 1])
  }

  /** entryToBucket after the first indices of one bucket. */
  function Marked(homes: map<int, nat>, row: seq<int>, bucket: nat, nNew: int): map<int, nat> {
    if row == [] then homes else
      var m := Marked(homes, row[..|row| - 1], bucket, nNew);
      var i := row[|row| - 1];
      if 0 <= i < nNew then m[i := bucket] else m
  }

  /** entryToBucket: the last bucket that lists an entry wins. */
  function Homes(rows: seq<seq<int>>, nNew: int): map<int, nat> {
    if rows == [] then map[] else Marked(Homes(rows[..|rows| - 1], nNew), rows[|rows| - 1], |rows| - 1, nNew)
  }

  function HomeOf(homes: map<int, nat>, n: int): nat {
    if n in homes then homes[n] else 0
  }

  /** An entry goes to the bucket it was in, or else to the one its source leads to, if the slot there is free. */
  function FiledOne(h: Hashes, s: State, n: int, bucket: nat, same: bool): State
    requires n in s.info
  {
    var slot := (bucket, h.BucketPosition(s.info[n], true, bucket));
    if same && slot !in s.new_ && s.info[n].nRefCount < NEW_BUCKETS_PER_ADDRESS then Referenced(s, slot, n)
    else if HomeSlot(h, s.info[n]) !in s.new_ then Referenced(s, HomeSlot(h, s.info[n]), n)
    else s
  }

  function Filed(h: Hashes, s: State, n: nat, homes: map<int, nat>, same: bool): (t: State)
    requires forall k :: 0 <= k < n ==> k in s.info
    ensures t.info.Keys == s.info.Keys
  {
    if n == 0 then s else FiledOne(h, Filed(h, s, n - 1, homes, same), n - 1, HomeOf(homes, n - 1), same)
  }

  /** Entries that found no place go. */
  function Pruned(s: State, n: nat): (t: State)
    requires RandomOk(s.info, s.random)
    ensures RandomOk(t.info, t.random)
  {
    if n == 0 then s else
      var t := Pruned(s, n - 1);
      if n - 1 in t.info && !t.info[n - 1].fInTried && t.info[n - 1].nRefCount == 0 then
        DeletedRandom(t, n - 1);
        Deleted(t, n - 1)
      else t
  }

  lemma DeletedRandom(s: State, id: int)
    requires RandomOk(s.info, s.random) && id in s.info
    ensures RandomOk(Deleted(s, id).info, Deleted(s, id).random)
  {
    hide RandomOk, OnlyMoved;
    RandomAt(s.info, s.random, id);
    var last := |s.random| - 1;
    SwapRandomOk(s, s.info[id].nRandomPos, last);
    var t := Swapped(s, s.info[id].nRandomPos, last);
    RandomAt(t.info, t.random, id);
    RemoveRandom(t.info, t.random, id);
  }

  /** nUBuckets as read back. */
  function BucketCount(f: File): int {
    if f.nVersion != 0 then Toggled(f.nUBuckets) else f.nUBuckets
  }

  /** The exceptions: a wrong key size, a count over its limit, a stream that ends too early. */
  predicate Rejected(f: File) {
    || f.nKeySize != 32 || f.nNew > NEW_BUCKET_COUNT * BUCKET_SIZE || f.nTried > TRIED_BUCKET_COUNT * BUCKET_SIZE
    || |f.newRecords| < f.nNew || |f.triedRecords| < f.nTried || |f.buckets| < BucketCount(f)
  }

  function NewPart(f: File): seq<Record>
    requires !Rejected(f)
  {
    f.newRecords[..Count(f.nNew)]
  }

  function TriedPart(f: File): seq<Record>
    requires !Rejected(f)
  {
    f.triedRecords[..Count(f.nTried)]
  }

  function Listed(f: File): State
    requires !Rejected(f)
  {
    EnterNew(NewPart(f)).(nIdCount := f.nNew, nNew := f.nNew, nTried := if f.nTried < 0 then f.nTried else 0)
  }

  function Entries(h: Hashes, f: File): State
    requires !Rejected(f)
  {
    EnterTried(h, Listed(f), TriedPart(f))
  }

  function FileHomes(f: File): map<int, nat>
    requires !Rejected(f)
  {
    Homes(f.buckets[..Count(BucketCount(f))], f.nNew)
  }

  /** Whether the buckets of the file can be used. */
  predicate SameBuckets(f: File, asmapVersion: nat) {
    f.nVersion == 2 && BucketCount(f) == NEW_BUCKET_COUNT && f.asmapVersion == asmapVersion
  }

  ghost function Load(h: Hashes, f: File, asmapVersion: nat): Outcome {
    if Rejected(f) then Failure else
      EntriesSound(h, f);
      var s := Filed(h, Entries(h, f), Count(f.nNew), FileHomes(f), SameBuckets(f, asmapVersion));
      FiledSound(h, Entries(h, f), Count(f.nNew), FileHomes(f), SameBuckets(f, asmapVersion));
      Loaded(Pruned(s, Count(f.nNew)))
  }

  // ---- what the stages keep for any file ----

  lemma NewEnteredSound(s: State, r: Record)
    requires Sound(s)
    ensures Sound(NewEntered(s, r))
  {
    CreateRandom(s.info, s.random, s.nIdCount, Restored(r).(nRandomPos := |s.random|));
  }

  lemma TriedEnteredSound(h: Hashes, s: State, r: Record)
    requires Sound(s)
    ensures Sound(TriedEntered(h, s, r))
  {
    CreateRandom(s.info, s.random, s.nIdCount, Restored(r).(nRandomPos := |s.random|, fInTried := true));
  }

  lemma {:induction false} EnterNewSound(rs: seq<Record>)
    ensures var s := EnterNew(rs);
            && Sound(s) && s.nIdCount == |rs| && s.nNew == |rs| && s.nTried == 0 && s.new_ == map[] && s.tried == map[]
            && (forall k :: k in s.info <==> 0 <= k < |rs|)
  {
    if rs != [] {
      EnterNewSound(rs[..|rs| - 1]);
      NewEnteredSound(EnterNew(rs[..|rs| - 1]), rs[|rs| - 1]);
    }
  }

  lemma {:induction false} EnterTriedSound(h: Hashes, s: State, rs: seq<Record>)
    requires Sound(s)
    ensures var t := EnterTried(h, s, rs);
            && Sound(t) && s.nIdCount <= t.nIdCount && s.nTried <= t.nTried <= s.nTried + |rs|
            && (forall k :: k in s.info ==> k in t.info && t.info[k] == s.info[k])
            && t.new_ == s.new_ && t.nNew == s.nNew
  {
    hide RandomOk;
    if rs != [] {
      EnterTriedSound(h, s, rs[..|rs| - 1]);
      TriedEnteredSound(h, EnterTried(h, s, rs[..|rs| - 1]), rs[|rs| - 1]);
    }
  }

  lemma EntriesSound(h: Hashes, f: File)
    requires !Rejected(f)
    ensures Sound(Listed(f)) && Sound(Entries(h, f)) && forall k :: 0 <= k < Count(f.nNew) ==> k in Entries(h, f).info
  {
    hide RandomOk;
    EnterNewSound(NewPart(f));
    EnterTriedSound(h, Listed(f), TriedPart(f));
  }

  lemma FiledOneSound(h: Hashes, s: State, n: int, bucket: nat, same: bool)
    requires RandomOk(s.info, s.random) && n in s.info
    ensures RandomOk(FiledOne(h, s, n, bucket, same).info, FiledOne(h, s, n, bucket, same).random)
  {
  }

  lemma {:induction false} FiledSound(h: Hashes, s: State, n: nat, homes: map<int, nat>, same: bool)
    requires RandomOk(s.info, s.random) && forall k :: 0 <= k < n ==> k in s.info
    ensures RandomOk(Filed(h, s, n, homes, same).info, Filed(h, s, n, homes, same).random)
  {
    hide RandomOk, FiledOne;
    if n > 0 {
      FiledSound(h, s, n - 1, homes, same);
      FiledOneSound(h, Filed(h, s, n - 1, homes, same), n - 1, HomeOf(homes, n - 1), same);
    }
  }

  // ---- Unserialize ----

  /** Clear_ */
  method Clear(m: CAddrMan)
    requires m.Shape()
    modifies m, m.vvNew, m.vvTried
    ensures m.St() == EMPTY
  {
    hide TableOf;
    m.nIdCount, m.mapInfo, m.mapAddr, m.vRandom, m.nTried, m.nNew := 0, map[], map[], [], 0, 0;
    FillTable(m.vvNew);
    FillTable(m.vvTried);
  }

  method ReadNew(m: CAddrMan, rs: seq<Record>)
    requires m.Shape() && m.St() == EMPTY.(nNew := m.nNew, nTried := m.nTried)
    modifies m`mapInfo, m`mapAddr, m`vRandom
    ensures m.St() == EnterNew(rs).(nIdCount := 0, nNew := m.nNew, nTried := m.nTried)
  {
    hide TableOf, RandomOk;
    for n := 0 to |rs|
      invariant m.St() == EnterNew(rs[..n]).(nIdCount := 0, nNew := m.nNew, nTried := m.nTried)
    {
      assert rs[..n + 1][..n] == rs[..n];
      EnterNewSound(rs[..n]);
      var info := Restored(rs[n]);
      m.mapAddr := m.mapAddr[info.address.service.ip := n];
      info := info.(nRandomPos := |m.vRandom|);
      m.mapInfo := m.mapInfo[n := info];
      m.vRandom := m.vRandom + [n];
    }
    assert rs[..|rs|] == rs;
  }

  method ReadTried(m: CAddrMan, rs: seq<Record>) returns (nLost: nat)
    requires m.Shape()
    modifies m`mapInfo, m`mapAddr, m`vRandom, m`nIdCount, m.vvTried
    ensures m.St() == EnterTried(m.h, old(m.St()), rs).(nTried := m.nTried)
    ensures |rs| - nLost == EnterTried(m.h, old(m.St()), rs).nTried - m.nTried
  {
    hide TableOf, Hashes.TriedSlot;
    ghost var s := m.St();
    nLost := 0;
    for n := 0 to |rs|
      invariant m.St() == EnterTried(m.h, s, rs[..n]).(nTried := m.nTried)
      invariant n - nLost == EnterTried(m.h, s, rs[..n]).nTried - m.nTried
    {
      assert rs[..n + 1][..n] == rs[..n];
      ghost var t := EnterTried(m.h, s, rs[..n]);
      assert EnterTried(m.h, s, rs[..n + 1]) == TriedEntered(m.h, t, rs[n]);
      var lost := ReadOneTried(m, rs[n], t);
      nLost := nLost + if lost then 1 else 0;
    }
    assert rs[..|rs|] == rs;
  }

  method ReadOneTried(m: CAddrMan, r: Record, ghost t: State) returns (lost: bool)
    requires m.Shape() && m.St() == t.(nTried := m.nTried)
    modifies m`mapInfo, m`mapAddr, m`vRandom, m`nIdCount, m.vvTried
    ensures m.St() == TriedEntered(m.h, t, r).(nTried := m.nTried)
    ensures TriedEntered(m.h, t, r).nTried == t.nTried + if lost then 0 else 1
  {
    hide TableOf;
    var info := Restored(r);
    var nKBucket := m.h.TriedBucket(info);
    var nKBucketPos := m.h.BucketPosition(info, false, nKBucket);
    TableAt(m.vvTried, nKBucket, nKBucketPos);
    lost := m.vvTried[nKBucket, nKBucketPos] != -1;
    if !lost {
      info := info.(nRandomPos := |m.vRandom|, fInTried := true);
      m.vRandom := m.vRandom + [m.nIdCount];
      m.mapInfo := m.mapInfo[m.nIdCount := info];
      m.mapAddr := m.mapAddr[info.address.service.ip := m.nIdCount];
      SetSlot(m.vvTried, nKBucket, nKBucketPos, m.nIdCount);
      m.nIdCount := m.nIdCount + 1;
    }
  }

  method ReadHomes(rows: seq<seq<int>>, nNew: int) returns (entryToBucket: map<int, nat>)
    ensures entryToBucket == Homes(rows, nNew)
  {
    entryToBucket := map[];
    for bucket := 0 to |rows|
      invariant entryToBucket == Homes(rows[..bucket], nNew)
    {
      assert rows[..bucket + 1][..bucket] == rows[..bucket];
      var row := rows[bucket];
      ghost var before := entryToBucket;
      for n := 0 to |row|
        invariant entryToBucket == Marked(before, row[..n], bucket, nNew)
      {
        assert row[..n + 1][..n] == row[..n];
        var nIndex := row[n];
        if nIndex >= 0 && nIndex < nNew {
          entryToBucket := entryToBucket[nIndex := bucket];
        }
      }
      assert row[..|row|] == row;
    }
    assert rows[..|rows|] == rows;
  }

  method FileOne(m: CAddrMan, n: int, bucket: nat, same: bool)
    requires m.Shape() && n in m.mapInfo && n >= 0 && (same ==> bucket < NEW_BUCKET_COUNT)
    modifies m`mapInfo, m.vvNew
    ensures m.St() == FiledOne(m.h, old(m.St()), n, bucket, same)
  {
    hide TableOf;
    var info := m.mapInfo[n];
    var pos := m.h.BucketPosition(info, true, bucket);
    if same {
      TableAt(m.vvNew, bucket, pos);
    }
    var b, p := bucket, pos;
    if !(same && m.vvNew[bucket, pos] == -1 && info.nRefCount < NEW_BUCKETS_PER_ADDRESS) {
      b := m.h.NewBucket(info, info.source);
      p := m.h.BucketPosition(info, true, b);
    }
    TableAt(m.vvNew, b, p);
    if m.vvNew[b, p] == -1 {
      SetSlot(m.vvNew, b, p, n);
      m.mapInfo := m.mapInfo[n := info.(nRefCount := info.nRefCount + 1)];
    }
  }

  method FileAll(m: CAddrMan, nNew: nat, homes: map<int, nat>, same: bool)
    requires m.Shape() && forall k :: 0 <= k < nNew ==> k in m.mapInfo
    requires same ==> forall k :: k in homes ==> homes[k] < NEW_BUCKET_COUNT
    modifies m`mapInfo, m.vvNew
    ensures m.St() == Filed(m.h, old(m.St()), nNew, homes, same)
  {
    hide TableOf, FiledOne;
    ghost var s := m.St();
    for n := 0 to nNew
      invariant m.St() == Filed(m.h, s, n, homes, same)
    {
      assert m.mapInfo.Keys == s.info.Keys;
      FileOne(m, n, if n in homes then homes[n] else 0, same);
    }
  }

  method Prune(m: CAddrMan, nNew: nat)
    requires m.Shape() && RandomOk(m.mapInfo, m.vRandom)
    modifies m`mapInfo, m`vRandom, m`mapAddr, m`nNew
    ensures m.St() == Pruned(old(m.St()), nNew)
  {
    hide TableOf, Deleted;
    ghost var s := m.St();
    for n := 0 to nNew
      invariant m.St() == Pruned(s, n)
    {
      if n in m.mapInfo && !m.mapInfo[n].fInTried && m.mapInfo[n].nRefCount == 0 {
        m.Delete(n);
      }
    }
  }

  lemma {:induction false} MarkedBelow(homes: map<int, nat>, row: seq<int>, bucket: nat, nNew: int, n: nat)
    requires bucket < n && forall k :: k in homes ==> homes[k] < n
    ensures forall k :: k in Marked(homes, row, bucket, nNew) ==> Marked(homes, row, bucket, nNew)[k] < n
  {
    if row != [] {
      MarkedBelow(homes, row[..|row| - 1], bucket, nNew, n);
    }
  }

  lemma {:induction false} HomesBelow(rows: seq<seq<int>>, nNew: int, n: nat)
    requires |rows| <= n
    ensures forall k :: k in Homes(rows, nNew) ==> Homes(rows, nNew)[k] < n
  {
    if rows != [] {
      HomesBelow(rows[..|rows| - 1], nNew, n);
      MarkedBelow(Homes(rows[..|rows| - 1], nNew), rows[|rows| - 1], |rows| - 1, nNew, n);
    }
  }

  /** CAddrMan::Unserialize. After an exception the contents are not specified. */
  method Unserialize(m: CAddrMan, f: File, asmapVersion: nat) returns (ok: bool)
    requires m.Shape()
    modifies m, m.vvNew, m.vvTried
    ensures ok <==> Load(m.h, f, asmapVersion) != Failure
    ensures ok ==> Load(m.h, f, asmapVersion) == Loaded(m.St())
  {
    hide TableOf, RandomOk, Filed, EnterNew, EnterTried, Homes, Pruned;
    Clear(m);
    ok := !(|| f.nKeySize != 32 || f.nNew > NEW_BUCKET_COUNT * BUCKET_SIZE || f.nTried > TRIED_BUCKET_COUNT * BUCKET_SIZE
            || |f.newRecords| < f.nNew || |f.triedRecords| < f.nTried || |f.buckets| < BucketCount(f));
    if ok {
      m.nNew, m.nTried := f.nNew, f.nTried;
      EnterNewSound(NewPart(f));
      EntriesSound(m.h, f);
      ReadNew(m, f.newRecords[..Count(f.nNew)]);
      m.nIdCount := f.nNew;
      m.nTried := f.nTried - Count(f.nTried);
      assert m.St() == Listed(f);
      var nLost := ReadTried(m, f.triedRecords[..Count(f.nTried)]);
      m.nTried := f.nTried - nLost;
      assert m.St() == Entries(m.h, f);
      var homes := ReadHomes(f.buckets[..Count(BucketCount(f))], f.nNew);
      HomesBelow(f.buckets[..Count(BucketCount(f))], f.nNew, Count(BucketCount(f)));
      var same := f.nVersion == 2 && BucketCount(f) == NEW_BUCKET_COUNT && f.asmapVersion == asmapVersion;
      FileAll(m, Count(f.nNew), homes, same);
      FiledSound(m.h, Entries(m.h, f), Count(f.nNew), homes, same);
      Prune(m, Count(f.nNew));
    }
  }
}
