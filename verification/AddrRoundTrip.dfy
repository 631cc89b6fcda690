/** Writing the address manager to disk and reading it back loses no entry. */
module AddrRoundTrip {
  import opened Common
  import opened AddrState
  import opened AddrMoves
  import opened AddrMan
  import opened AddrFile
  import opened AddrLoad
  import opened AddrReload

  // ---- the tables are large enough for the counts ----

  ghost function Grid(a: nat, b: nat): set<Slot> {
    set x: nat, y: nat | x < a && y < b :: (x, y)
  }

  ghost function Line(a: nat, b: nat): set<Slot> {
    set y: nat | y < b :: (a, y)
  }

  lemma {:induction false} LineSize(a: nat, b: nat)
    ensures |Line(a, b)| == b
  {
    if b == 0 {
      assert Line(a, b) == {};
    } else {
      LineSize(a, b - 1);
      assert Line(a, b) == Line(a, b - 1) + {(a, b - 1)};
    }
  }

  lemma {:induction false} GridSize(a: nat, b: nat)
    ensures |Grid(a, b)| == a * b
  {
    if a == 0 {
      assert Grid(a, b) == {};
    } else {
      GridSize(a - 1, b);
      LineSize(a - 1, b);
      assert Grid(a, b) == Grid(a - 1, b) + Line(a - 1, b) && Grid(a - 1, b) !! Line(a - 1, b);
      assert (a - 1) * b + b == a * b;
    }
  }

  /** Ids that each have a slot of their own are no more than the slots. */
  lemma {:induction false} Pigeonhole<K, V>(ids: set<V>, t: map<K, V>)
    requires ids <= t.Values
    ensures |ids| <= |t|
  {
    if id :| id in ids {
      var s :| s in t && t[s] == id;
      forall x | x in ids - {id}
        ensures x in (t - {s}).Values
      {
        var q :| q in t && t[q] == x;
        assert q in t - {s};
      }
      Pigeonhole(ids - {id}, t - {s});
      assert (t - {s}).Keys == t.Keys - {s};
    } else {
      assert ids == {};
    }
  }

  lemma WithinGrid(t: Table, ids: set<int>, a: nat, b: nat)
    requires (forall s :: s in t ==> s.0 < a && s.1 < b) && ids <= t.Values
    ensures |ids| <= a * b
  {
    Pigeonhole(ids, t);
    assert t.Keys <= Grid(a, b);
    SubsetSize(t.Keys, Grid(a, b));
    GridSize(a, b);
  }

  lemma HasSlot(h: Hashes, s: State, id: int) returns (q: Slot)
    requires Consistent(h, s) && id in s.info
    ensures if s.info[id].fInTried then Holds(s.tried, q, id) else Holds(s.new_, q, id)
  {
    if s.info[id].fInTried {
      q := h.TriedSlot(s.info[id]);
    } else {
      assert |SlotsOf(s.new_, id)| > 0;
      q :| q in SlotsOf(s.new_, id);
    }
  }

  /** Neither limit of Unserialize can be hit by a table that was written. */
  lemma CountsFit(h: Hashes, s: State)
    requires Consistent(h, s)
    ensures 0 <= s.nNew <= 65536 && 0 <= s.nTried <= 16384
  {
    hide RandomOk, AddrOk, NewTableOk, TriedTableOk, RefsOk;
    forall id | id in s.info
      ensures if s.info[id].fInTried then id in s.tried.Values else id in s.new_.Values
    {
      var _ := HasSlot(h, s, id);
    }
    InBounds(h, s);
    WithinGrid(s.new_, NewIds(s.info), NEW_BUCKET_COUNT, BUCKET_SIZE);
    WithinGrid(s.tried, TriedIds(s.info), TRIED_BUCKET_COUNT, BUCKET_SIZE);
    assert NewIds(s.info) - {} == NewIds(s.info);
  }

  lemma InBounds(h: Hashes, s: State)
    requires Consistent(h, s)
    ensures forall q :: q in s.new_ ==> q.0 < NEW_BUCKET_COUNT && q.1 < BUCKET_SIZE
    ensures forall q :: q in s.tried ==> q.0 < TRIED_BUCKET_COUNT && q.1 < BUCKET_SIZE
  {
    InvParts(h, s, {}, {});
    hide Inv, RandomOk, AddrOk, RefsOk, TriedTableOk, NewTableOk;
    forall q | q in s.new_
      ensures q.0 < NEW_BUCKET_COUNT && q.1 < BUCKET_SIZE
    {
      SlotHolds(h, s.info, s.new_, q);
    }
    forall q | q in s.tried
      ensures q.0 < TRIED_BUCKET_COUNT && q.1 < BUCKET_SIZE
    {
      TriedSlotHolds(h, s.info, s.tried, q);
    }
  }

  // ---- which bucket a "new" entry is read back into ----

  lemma {:induction false} MarkedAt(homes: map<int, nat>, row: seq<int>, bucket: nat, nNew: int, i: int)
    requires 0 <= i < nNew
    ensures var m := Marked(homes, row, bucket, nNew);
            if i in row then i in m && m[i] == bucket else (i in m <==> i in homes) && (i in m ==> m[i] == homes[i])
  {
    if row != [] {
      var p := row[..|row| - 1];
      MarkedAt(homes, p, bucket, nNew, i);
      assert row == p + [row[|row| - 1]];
    }
  }

  /** entryToBucket is the highest-numbered bucket that lists the entry. */
  lemma {:induction false} HomesAt(rows: seq<seq<int>>, nNew: int, i: int)
    requires 0 <= i < nNew
    ensures var m := Homes(rows, nNew);
            && (i in m ==> m[i] < |rows| && i in rows[m[i]] && forall b :: m[i] < b < |rows| ==> i !in rows[b])
            && (i !in m ==> forall b :: 0 <= b < |rows| ==> i !in rows[b])
  {
    if rows != [] {
      var p := rows[..|rows| - 1];
      HomesAt(p, nNew, i);
      MarkedAt(Homes(p, nNew), rows[|rows| - 1], |rows| - 1, nNew, i);
    }
  }

  /** A row lists the index of an id exactly when the bucket holds the id. */
  lemma {:induction false} RowAt(s: State, bucket: nat, n: nat, x: int)
    ensures x in Row(s, bucket, n) <==>
            exists p :: 0 <= p < n && (bucket, p) in s.new_ && s.new_[(bucket, p)] >= 0 && |NewList(s.info, s.new_[(bucket, p)])| == x
  {
    hide NewList;
    if n > 0 {
      RowAt(s, bucket, n - 1, x);
      if (bucket, n - 1) in s.new_ && s.new_[(bucket, n - 1)] >= 0 && |NewList(s.info, s.new_[(bucket, n - 1)])| == x {
        assert x in Row(s, bucket, n);
      }
    }
  }

  lemma NewIndexAt(info: map<int, Info>, n: nat, i: nat)
    requires i < |NewList(info, n)|
    ensures var id := NewList(info, n)[i]; 0 <= id < n && id in info && info[id].nRefCount != 0 && |NewList(info, id)| == i
  {
    NewListIds(info, n);
    var id := NewList(info, n)[i];
    NewIndex(info, n, id);
  }

  /** The position of entry number i in a bucket. */
  function OldSlot(h: Hashes, s: State, id: int, bucket: nat): Slot
    requires id in s.info
  {
    (bucket, h.BucketPosition(s.info[id], true, bucket))
  }

  lemma RowHolds(h: Hashes, s: State, bucket: nat, i: nat)
    requires Consistent(h, s) && s.nIdCount >= 0 && i < |NewList(s.info, s.nIdCount)|
    ensures var id := NewList(s.info, s.nIdCount)[i];
            id in s.info && (i in Row(s, bucket, BUCKET_SIZE) <==> Holds(s.new_, OldSlot(h, s, id, bucket), id))
  {
    var id := NewList(s.info, s.nIdCount)[i];
    NewIndexAt(s.info, s.nIdCount, i);
    RowAt(s, bucket, BUCKET_SIZE, i);
    InvParts(h, s, {}, {});
    hide Inv, RandomOk, AddrOk, RefsOk, TriedTableOk, NewTableOk, NewList, Row;
    if i in Row(s, bucket, BUCKET_SIZE) {
      var p :| 0 <= p < BUCKET_SIZE && (bucket, p) in s.new_ && s.new_[(bucket, p)] >= 0 && |NewList(s.info, s.new_[(bucket, p)])| == i;
      SlotHolds(h, s.info, s.new_, (bucket, p));
      NewHas(h, s, s.new_[(bucket, p)]);
    }
    if Holds(s.new_, OldSlot(h, s, id, bucket), id) {
      assert (bucket, OldSlot(h, s, id, bucket).1) in s.new_;
    }
  }

  /** The id is found again at its index. */
  lemma NewHas(h: Hashes, s: State, id: int)
    requires Consistent(h, s) && s.nIdCount >= 0 && id in s.info && !s.info[id].fInTried
    ensures 0 <= id < s.nIdCount && |NewList(s.info, id)| < |NewList(s.info, s.nIdCount)|
    ensures NewList(s.info, s.nIdCount)[|NewList(s.info, id)|] == id
  {
    NewIndex(s.info, s.nIdCount, id);
  }

  ghost predicate HighestSlot(t: Table, id: int, slot: Slot) {
    Holds(t, slot, id) && forall q: Slot :: Holds(t, q, id) ==> q.0 <= slot.0
  }

  /** What Unserialize works out from the rows that Serialize wrote. */
  lemma HomesHighest(h: Hashes, s: State, rows: seq<seq<int>>, i: nat)
    requires Consistent(h, s) && s.nIdCount >= 0 && i < |NewList(s.info, s.nIdCount)|
    requires |rows| == NEW_BUCKET_COUNT && forall b :: 0 <= b < |rows| ==> rows[b] == Row(s, b, BUCKET_SIZE)
    ensures var id := NewList(s.info, s.nIdCount)[i]; var m := Homes(rows, s.nNew);
            id in s.info && !s.info[id].fInTried && i in m && HighestSlot(s.new_, id, OldSlot(h, s, id, m[i]))
  {
    hide Inv, RandomOk, AddrOk, RefsOk, TriedTableOk, NewTableOk, NewList, Row, Homes, Hashes.BucketPosition;
    ListsExact(h, s);
    var id := NewList(s.info, s.nIdCount)[i];
    NewIndexAt(s.info, s.nIdCount, i);
    NewIsNew(h, s, id);
    HomesAt(rows, s.nNew, i);
    var old_ := HasSlot(h, s, id);
    forall q: Slot | Holds(s.new_, q, id)
      ensures q.0 < NEW_BUCKET_COUNT && q == OldSlot(h, s, id, q.0) && i in rows[q.0]
    {
      InvParts(h, s, {}, {});
      SlotHolds(h, s.info, s.new_, q);
      RowHolds(h, s, q.0, i);
    }
    var m := Homes(rows, s.nNew);
    assert i in rows[old_.0];
    RowHolds(h, s, m[i], i);
  }

  lemma NewIsNew(h: Hashes, s: State, id: int)
    requires Consistent(h, s) && id in s.info && s.info[id].nRefCount != 0
    ensures !s.info[id].fInTried
  {
  }

  // ---- exact contents after each stage ----

  ghost predicate DistinctTried(h: Hashes, rs: seq<Record>) {
    forall i, j :: 0 <= i < j < |rs| ==> h.TriedSlot(Restored(rs[i])) != h.TriedSlot(Restored(rs[j]))
  }

  /** The slots taken, and by which record. */
  ghost predicate TriedFrom(h: Hashes, tried: Table, first: nat, rs: seq<Record>) {
    forall q :: q in tried ==> 0 <= tried[q] - first < |rs| && q == h.TriedSlot(Restored(rs[tried[q] - first]))
  }

  lemma TriedFromStep(h: Hashes, tried: Table, first: nat, rs: seq<Record>)
    requires rs != [] && TriedFrom(h, tried, first, rs[..|rs| - 1]) && DistinctTried(h, rs)
    ensures var q := h.TriedSlot(Restored(rs[|rs| - 1])); q !in tried && TriedFrom(h, tried[q := first + |rs| - 1], first, rs)
  {
    hide Hashes.TriedSlot;
    var p := rs[..|rs| - 1];
    forall q | q in tried
      ensures q != h.TriedSlot(Restored(rs[|rs| - 1])) && q == h.TriedSlot(Restored(rs[tried[q] - first]))
    {
      assert p[tried[q] - first] == rs[tried[q] - first];
    }
  }

  ghost predicate TriedAdded(a: map<int, Info>, b: map<int, Info>, first: nat, rs: seq<Record>) {
    && (forall k :: k in b <==> k in a || first <= k < first + |rs|)
    && (forall k :: k in a && k in b ==> b[k] == a[k])
    && (forall i :: 0 <= i < |rs| ==> TriedAs(b, first + i, rs[i]))
  }

  lemma TriedAddedStep(a: map<int, Info>, b: map<int, Info>, first: nat, rs: seq<Record>, i: Info)
    requires rs != [] && TriedAdded(a, b, first, rs[..|rs| - 1]) && (forall k :: k in a ==> k < first)
    requires i == Restored(rs[|rs| - 1]).(nRandomPos := i.nRandomPos, fInTried := true)
    ensures TriedAdded(a, b[first + |rs| - 1 := i], first, rs)
  {
    var b' := b[first + |rs| - 1 := i];
    forall j | 0 <= j < |rs| - 1
      ensures TriedAs(b', first + j, rs[j])
    {
      assert TriedAs(b, first + j, rs[..|rs| - 1][j]);
    }
  }

  lemma NoneTried(h: Hashes, info: map<int, Info>, first: nat, rs: seq<Record>)
    requires DistinctTried(h, rs)
    ensures rs == [] ==> TriedFrom(h, map[], first, rs) && TriedAdded(info, info, first, rs)
    ensures rs != [] ==> DistinctTried(h, rs[..|rs| - 1])
  {
  }

  lemma {:induction false} EnterTriedExact(h: Hashes, s: State, rs: seq<Record>)
    requires s.nIdCount >= 0 && s.tried == map[] && DistinctTried(h, rs) && forall k :: k in s.info ==> k < s.nIdCount
    ensures var t := EnterTried(h, s, rs);
            t.nIdCount == s.nIdCount + |rs| && TriedFrom(h, t.tried, s.nIdCount, rs) && TriedAdded(s.info, t.info, s.nIdCount, rs)
  {
    hide Hashes.TriedSlot, TriedAdded, TriedFrom, DistinctTried;
    NoneTried(h, s.info, s.nIdCount, rs);
    if rs != [] {
      EnterTriedExact(h, s, rs[..|rs| - 1]);
      var t := EnterTried(h, s, rs[..|rs| - 1]);
      TriedFromStep(h, t.tried, s.nIdCount, rs);
      TriedAddedStep(s.info, t.info, s.nIdCount, rs, Restored(rs[|rs| - 1]).(nRandomPos := |t.random|, fInTried := true));
    }
  }

  ghost predicate TriedAs(info: map<int, Info>, k: int, r: Record) {
    k in info && Stored(info[k]) == r && info[k].fInTried
  }

  /** Where entry n goes when the buckets of the file can be used. */
  ghost function NewSlot(h: Hashes, info: map<int, Info>, homes: map<int, nat>, n: int): Slot
    requires n in info
  {
    (HomeOf(homes, n), h.BucketPosition(info[n], true, HomeOf(homes, n)))
  }

  ghost predicate FiledAs(h: Hashes, info: map<int, Info>, homes: map<int, nat>, n: nat, t: Table) {
    && (forall k :: 0 <= k < n ==> k in info && Holds(t, NewSlot(h, info, homes, k), k))
    && (forall q :: q in t ==> 0 <= t[q] < n && t[q] in info && q == NewSlot(h, info, homes, t[q]))
  }

  ghost predicate DistinctSlots(h: Hashes, info: map<int, Info>, homes: map<int, nat>, n: nat) {
    && (forall k :: 0 <= k < n ==> k in info)
    && (forall j, k :: 0 <= j < k < n ==> NewSlot(h, info, homes, j) != NewSlot(h, info, homes, k))
  }

  ghost predicate InfoFiled(a: map<int, Info>, b: map<int, Info>, n: nat) {
    a.Keys == b.Keys && forall k :: k in a ==> b[k] == if 0 <= k < n then a[k].(nRefCount := 1) else a[k]
  }

  lemma {:induction false} FiledExact(h: Hashes, s: State, n: nat, homes: map<int, nat>)
    requires s.new_ == map[] && (forall k :: 0 <= k < n ==> k in s.info && s.info[k].nRefCount == 0) && DistinctSlots(h, s.info, homes, n)
    ensures var t := Filed(h, s, n, homes, true);
            FiledAs(h, s.info, homes, n, t.new_) && t.addr == s.addr && InfoFiled(s.info, t.info, n)
  {
    hide Hashes.BucketPosition, NewSlot, FiledAs, FiledOne, DistinctSlots, InfoFiled;
    FiledNone(h, s, homes, n);
    if n > 0 {
      FiledExact(h, s, n - 1, homes);
      var t := Filed(h, s, n - 1, homes, true);
      FiledAsFree(h, s.info, homes, n, t.new_);
      InfoFiledStep(s.info, t.info, n);
      FiledOneExact(h, s, t, n - 1, homes);
    }
  }

  lemma InfoFiledStep(a: map<int, Info>, b: map<int, Info>, n: nat)
    requires n > 0 && InfoFiled(a, b, n - 1) && n - 1 in a
    ensures n - 1 in b && b[n - 1] == a[n - 1] && InfoFiled(a, b[n - 1 := b[n - 1].(nRefCount := 1)], n)
  {
  }

  lemma FiledNone(h: Hashes, s: State, homes: map<int, nat>, n: nat)
    requires s.new_ == map[] && DistinctSlots(h, s.info, homes, n)
    ensures FiledAs(h, s.info, homes, 0, s.new_) && InfoFiled(s.info, s.info, 0)
    ensures n > 0 ==> DistinctSlots(h, s.info, homes, n - 1)
  {
  }

  lemma FiledAsFree(h: Hashes, info: map<int, Info>, homes: map<int, nat>, n: nat, t: Table)
    requires n > 0 && FiledAs(h, info, homes, n - 1, t) && n - 1 in info && DistinctSlots(h, info, homes, n)
    ensures NewSlot(h, info, homes, n - 1) !in t && FiledAs(h, info, homes, n, t[NewSlot(h, info, homes, n - 1) := n - 1])
  {
    hide NewSlot;
    var q := NewSlot(h, info, homes, n - 1);
    forall x | x in t
      ensures x != q
    {
      var j := t[x];
      assert x == NewSlot(h, info, homes, j) && 0 <= j < n - 1;
    }
    forall k | 0 <= k < n
      ensures Holds(t[q := n - 1], NewSlot(h, info, homes, k), k)
    {
      if k < n - 1 {
        assert NewSlot(h, info, homes, k) != NewSlot(h, info, homes, n - 1);
      }
    }
  }

  lemma FiledOneExact(h: Hashes, s: State, t: State, n: int, homes: map<int, nat>)
    requires n in s.info && n in t.info && t.info[n] == s.info[n] && s.info[n].nRefCount == 0 && NewSlot(h, s.info, homes, n) !in t.new_
    ensures var u := FiledOne(h, t, n, HomeOf(homes, n), true);
            u.new_ == t.new_[NewSlot(h, s.info, homes, n) := n] && u.addr == t.addr && u.info == t.info[n := t.info[n].(nRefCount := 1)]
  {
  }

  lemma {:induction false} PrunedNothing(s: State, n: nat)
    requires RandomOk(s.info, s.random) && forall k :: 0 <= k < n && k in s.info ==> s.info[k].fInTried || s.info[k].nRefCount != 0
    ensures Pruned(s, n) == s
  {
    if n > 0 {
      PrunedNothing(s, n - 1);
    }
  }

  // ---- the round trip ----

  /** The list of ids in the order in which their entries are written. */
  ghost function Written(s: State): seq<int>
    requires s.nIdCount >= 0
  {
    NewList(s.info, s.nIdCount) + TriedList(s.info, s.nIdCount)
  }

  lemma WrittenIds(h: Hashes, s: State)
    requires Consistent(h, s) && s.nIdCount >= 0
    ensures |Written(s)| == s.nNew + s.nTried && |NewList(s.info, s.nIdCount)| == s.nNew
    ensures forall k :: 0 <= k < |Written(s)| ==> Written(s)[k] in s.info && (s.info[Written(s)[k]].fInTried <==> k >= s.nNew)
    ensures forall j, k :: 0 <= j < k < |Written(s)| ==> Written(s)[j] != Written(s)[k]
    ensures forall id :: id in s.info ==> id in Written(s)
  {
    ListsExact(h, s);
    NewListIds(s.info, s.nIdCount);
    TriedListIds(s.info, s.nIdCount);
    hide Inv, NewList, TriedList, Ids;
    BothLists(s.info, NewList(s.info, s.nIdCount), TriedList(s.info, s.nIdCount));
  }

  lemma BothLists(info: map<int, Info>, n: seq<int>, t: seq<int>)
    requires Ids(n) == NewIds(info) && Ids(t) == TriedIds(info)
    requires (forall i, j :: 0 <= i < j < |n| ==> n[i] < n[j]) && (forall i, j :: 0 <= i < j < |t| ==> t[i] < t[j])
    ensures var w := n + t;
            && (forall k :: 0 <= k < |w| ==> w[k] in info && (info[w[k]].fInTried <==> k >= |n|))
            && (forall j, k :: 0 <= j < k < |w| ==> w[j] != w[k])
            && (forall id :: id in info ==> id in w)
  {
    var w := n + t;
    forall k | 0 <= k < |w|
      ensures w[k] in info && (info[w[k]].fInTried <==> k >= |n|)
    {
      assert if k < |n| then n[k] in Ids(n) else t[k - |n|] in Ids(t);
    }
    forall id | id in info
      ensures id in w
    {
      assert id in NewIds(info) || id in TriedIds(info);
    }
  }

  lemma DumpParts(h: Hashes, s: State, v: nat)
    requires Consistent(h, s) && s.nIdCount >= 0
    ensures var f := Dump(s, v);
            && !Rejected(f) && SameBuckets(f, v) && FileHomes(f) == Homes(f.buckets, s.nNew) && f.nNew == s.nNew && f.nTried == s.nTried
            && |NewPart(f)| == s.nNew && |TriedPart(f)| == s.nTried && |Written(s)| == s.nNew + s.nTried
            && (forall k :: 0 <= k < |Written(s)| ==> Written(s)[k] in s.info && (NewPart(f) + TriedPart(f))[k] == Stored(s.info[Written(s)[k]]))
            && |f.buckets| == NEW_BUCKET_COUNT && forall b :: 0 <= b < |f.buckets| ==> f.buckets[b] == Row(s, b, BUCKET_SIZE)
  {
    hide Inv, NewList, TriedList, Row, Homes;
    WrittenIds(h, s);
    CountsFit(h, s);
    ListsExact(h, s);
    var f := Dump(s, v);
    assert Toggled(Toggled(NEW_BUCKET_COUNT)) == NEW_BUCKET_COUNT;
    assert f.buckets[..NEW_BUCKET_COUNT] == f.buckets;
    assert NewPart(f) == f.newRecords && TriedPart(f) == f.triedRecords;
  }

  /** The addresses in the file are distinct, and so are the "tried" slots they lead to. */
  lemma DumpDistinct(h: Hashes, s: State, v: nat)
    requires Consistent(h, s) && s.nIdCount >= 0
    ensures var f := Dump(s, v); !Rejected(f) && DistinctIps(NewPart(f) + TriedPart(f)) && DistinctTried(h, TriedPart(f))
  {
    hide Inv, NewList, TriedList, Row, Written, Hashes.TriedSlot;
    DumpParts(h, s, v);
    WrittenIds(h, s);
    var f := Dump(s, v);
    var rs := NewPart(f) + TriedPart(f);
    forall j, k | 0 <= j < k < |rs|
      ensures rs[j].address.service.ip != rs[k].address.service.ip
    {
      IpOf(h, s, Written(s)[j]);
      IpOf(h, s, Written(s)[k]);
    }
    forall j, k | 0 <= j < k < |TriedPart(f)|
      ensures h.TriedSlot(Restored(TriedPart(f)[j])) != h.TriedSlot(Restored(TriedPart(f)[k]))
    {
      assert rs[s.nNew + j] == TriedPart(f)[j] && rs[s.nNew + k] == TriedPart(f)[k];
      TriedSlotOf(h, s, Written(s)[s.nNew + j]);
      TriedSlotOf(h, s, Written(s)[s.nNew + k]);
    }
  }

  lemma IpOf(h: Hashes, s: State, id: int)
    requires Consistent(h, s) && id in s.info
    ensures s.info[id].address.service.ip in s.addr && s.addr[s.info[id].address.service.ip] == id
  {
  }

  lemma AddrOf(h: Hashes, s: State, ip: NetAddr)
    requires Consistent(h, s) && ip in s.addr
    ensures s.addr[ip] in s.info && s.info[s.addr[ip]].address.service.ip == ip
  {
  }

  lemma TriedSlotOf(h: Hashes, s: State, id: int)
    requires Consistent(h, s) && id in s.info && s.info[id].fInTried
    ensures h.TriedSlot(Restored(Stored(s.info[id]))) == h.TriedSlot(s.info[id])
    ensures h.TriedSlot(s.info[id]) in s.tried && s.tried[h.TriedSlot(s.info[id])] == id
  {
  }

  /** Entry number k of the reloaded table is the k-th one written. */
  ghost predicate Reloaded(s: State, t: State, k: int)
    requires s.nIdCount >= 0 && 0 <= k < |Written(s)| && Written(s)[k] in s.info
  {
    var i := s.info[Written(s)[k]];
    k in t.info && Stored(t.info[k]) == Stored(i) && t.info[k].fInTried == i.fInTried && t.info[k].nRefCount == if i.fInTried then 0 else 1
  }

  /** The entries just before they are put into their buckets. */
  lemma EntriesExact(h: Hashes, s: State, v: nat)
    requires Consistent(h, s) && s.nIdCount >= 0
    ensures var f := Dump(s, v); !Rejected(f)
    ensures var e := Entries(h, Dump(s, v));
            && s.nNew >= 0 && s.nTried >= 0 && |Written(s)| == s.nNew + s.nTried && e.new_ == map[]
            && (forall k :: k in e.info <==> 0 <= k < s.nNew + s.nTried)
            && (forall k :: k in e.info ==> Written(s)[k] in s.info && Stored(e.info[k]) == Stored(s.info[Written(s)[k]]))
            && (forall k :: k in e.info ==> e.info[k].fInTried == (k >= s.nNew) && (k < s.nNew ==> e.info[k].nRefCount == 0))
  {
    hide Inv, NewList, TriedList, Row, Written, Hashes.TriedSlot, EnterTried, EnterNew, RandomOk, DistinctTried, TriedFrom, TriedAdded, DistinctIps, Dump, Stored;
    DumpParts(h, s, v);
    DumpDistinct(h, s, v);
    var f := Dump(s, v);
    var a, b := NewPart(f), TriedPart(f);
    EnterNewSound(a);
    EnterNewInfo(a);
    assert Listed(f) == EnterNew(a);
    EnterTriedExact(h, Listed(f), b);
    EnterTriedSound(h, Listed(f), b);
    EntriesAt(Listed(f).info, Entries(h, f).info, a, b);
  }

  lemma EntriesAt(i: map<int, Info>, e: map<int, Info>, a: seq<Record>, b: seq<Record>)
    requires (forall k :: k in i <==> 0 <= k < |a|) && forall k :: 0 <= k < |a| ==> i[k] == Restored(a[k]).(nRandomPos := k)
    requires TriedAdded(i, e, |a|, b)
    ensures forall k :: k in e <==> 0 <= k < |a| + |b|
    ensures forall k :: k in e ==> Stored(e[k]) == (a + b)[k] && e[k].fInTried == (k >= |a|) && (k < |a| ==> e[k].nRefCount == 0)
  {
    forall k | k in e
      ensures Stored(e[k]) == (a + b)[k] && e[k].fInTried == (k >= |a|) && (k < |a| ==> e[k].nRefCount == 0)
    {
      assert k >= |a| ==> TriedAs(e, |a| + (k - |a|), b[k - |a|]);
    }
  }

  /** The slot of a "new" entry after reloading: the highest-numbered one it was in. */
  lemma NewSlotHighest(h: Hashes, s: State, v: nat, k: nat)
    requires Consistent(h, s) && s.nIdCount >= 0 && k < s.nNew
    ensures var f := Dump(s, v); !Rejected(f)
    ensures var e := Entries(h, Dump(s, v));
            k in e.info && k < |Written(s)| && HighestSlot(s.new_, Written(s)[k], NewSlot(h, e.info, FileHomes(Dump(s, v)), k))
  {
    hide Inv, NewList, TriedList, Row, EnterTried, RandomOk, Homes;
    DumpParts(h, s, v);
    EntriesExact(h, s, v);
    ListsExact(h, s);
    var f := Dump(s, v);
    HomesHighest(h, s, f.buckets, k);
    var e, id := Entries(h, f), Written(s)[k];
    assert id == NewList(s.info, s.nIdCount)[k];
    assert e.info[k].address == Stored(e.info[k]).address == Stored(s.info[id]).address;
    assert NewSlot(h, e.info, FileHomes(f), k) == OldSlot(h, s, id, FileHomes(f)[k]);
  }

  /** The reloaded table in full, up to the numbering of the entries. */
  lemma LoadExact(h: Hashes, s: State, v: nat)
    requires Consistent(h, s) && s.nIdCount >= 0
    ensures Load(h, Dump(s, v), v).Loaded? && Consistent(h, Load(h, Dump(s, v), v).state)
    ensures var t := Load(h, Dump(s, v), v).state;
            && (forall k :: k in t.info <==> 0 <= k < |Written(s)|)
            && (forall k :: k in t.info ==> Written(s)[k] in s.info && Reloaded(s, t, k))
            && (forall q :: q in t.new_ ==> 0 <= t.new_[q] < |Written(s)| && HighestSlot(s.new_, Written(s)[t.new_[q]], q))
  {
    hide Inv, NewList, TriedList, Row, Written, HighestSlot, FiledAs, InfoFiled, Entries, FileHomes, Load, Dump, Stored, DistinctIps, NewSlot;
    DumpDistinct(h, s, v);
    EntriesExact(h, s, v);
    CountsFit(h, s);
    WrittenIds(h, s);
    var f := Dump(s, v);
    DumpParts(h, s, v);
    LoadConsistent(h, f, v);
    LoadIs(h, s, v);
    var e, homes, t := Entries(h, f), FileHomes(f), Load(h, f, v).state;
    FiledInfo(e.info, t.info, s.nNew);
    forall k | k in t.info
      ensures Written(s)[k] in s.info && Reloaded(s, t, k)
    {
      RefsOf(h, t, k);
      StoredAs(e.info[k], t.info[k]);
    }
    forall q | q in t.new_
      ensures 0 <= t.new_[q] < |Written(s)| && HighestSlot(s.new_, Written(s)[t.new_[q]], q)
    {
      FiledAt(h, e.info, homes, s.nNew, t.new_, q);
      NewSlotHighest(h, s, v, t.new_[q]);
    }
  }

  /** Nothing needs pruning. */
  lemma LoadIs(h: Hashes, s: State, v: nat)
    requires Consistent(h, s) && s.nIdCount >= 0
    ensures var f := Dump(s, v); !Rejected(f) && Load(h, f, v).Loaded? && s.nNew >= 0
    ensures var f := Dump(s, v); var t := Load(h, f, v).state;
            FiledAs(h, Entries(h, f).info, FileHomes(f), s.nNew, t.new_) && InfoFiled(Entries(h, f).info, t.info, s.nNew)
  {
    hide Inv, RandomOk, Filed, Pruned, Entries, FileHomes, Written, FiledAs, InfoFiled, Dump, Row, DistinctSlots, Stored;
    DumpParts(h, s, v);
    EntriesExact(h, s, v);
    SlotsDistinct(h, s, v);
    var f := Dump(s, v);
    var e, homes := Entries(h, f), FileHomes(f);
    FiledExact(h, e, s.nNew, homes);
    var t := Filed(h, e, s.nNew, homes, true);
    EntriesSound(h, f);
    FiledSound(h, e, s.nNew, homes, true);
    FiledInfo(e.info, t.info, s.nNew);
    PrunedNothing(t, s.nNew);
  }

  lemma StoredAs(a: Info, b: Info)
    requires b == a || b == a.(nRefCount := 1)
    ensures Stored(b) == Stored(a)
  {
  }

  lemma RefsOf(h: Hashes, t: State, k: int)
    requires Consistent(h, t) && k in t.info
    ensures t.info[k].fInTried ==> t.info[k].nRefCount == 0
  {
  }

  lemma FiledAt(h: Hashes, info: map<int, Info>, homes: map<int, nat>, n: nat, t: Table, q: Slot)
    requires FiledAs(h, info, homes, n, t) && q in t
    ensures 0 <= t[q] < n && t[q] in info && q == NewSlot(h, info, homes, t[q])
  {
  }

  lemma FiledInfo(a: map<int, Info>, b: map<int, Info>, n: nat)
    requires InfoFiled(a, b, n)
    ensures a.Keys == b.Keys && forall k :: k in b ==> b[k] == if 0 <= k < n then a[k].(nRefCount := 1) else a[k]
  {
  }

  lemma SlotsDistinct(h: Hashes, s: State, v: nat)
    requires Consistent(h, s) && s.nIdCount >= 0
    ensures var f := Dump(s, v); !Rejected(f) && s.nNew >= 0 && DistinctSlots(h, Entries(h, f).info, FileHomes(f), s.nNew)
  {
    hide Inv, NewList, TriedList, Row, EnterTried, RandomOk, Homes, Entries, FileHomes, NewSlot, Written;
    DumpParts(h, s, v);
    EntriesExact(h, s, v);
    WrittenIds(h, s);
    var f := Dump(s, v);
    forall j, k | 0 <= j < k < s.nNew
      ensures NewSlot(h, Entries(h, f).info, FileHomes(f), j) != NewSlot(h, Entries(h, f).info, FileHomes(f), k)
    {
      NewSlotHighest(h, s, v, j);
      NewSlotHighest(h, s, v, k);
    }
  }

  /** The same address is known under both ids, with the same record, in the same table. */
  ghost predicate SameEntry(s: State, t: State, ip: NetAddr) {
    && ip in s.addr && ip in t.addr && s.addr[ip] in s.info && t.addr[ip] in t.info
    && Stored(t.info[t.addr[ip]]) == Stored(s.info[s.addr[ip]])
    && t.info[t.addr[ip]].fInTried == s.info[s.addr[ip]].fInTried
  }

  /**
   * Reading back what was written, under the same asmap, loses no entry. The result is consistent again,
   * and each "new" entry lies in exactly one slot, in the highest-numbered bucket it occupied.
   */
  lemma RoundTrip(h: Hashes, s: State, asmapVersion: nat)
    requires Consistent(h, s) && s.nIdCount >= 0
    ensures var r := Load(h, Dump(s, asmapVersion), asmapVersion); r.Loaded? && Consistent(h, r.state)
    ensures var t := Load(h, Dump(s, asmapVersion), asmapVersion).state;
            && t.nNew == s.nNew && t.nTried == s.nTried && t.addr.Keys == s.addr.Keys
            && (forall ip :: ip in s.addr ==> SameEntry(s, t, ip))
            && (forall ip :: ip in s.addr && !s.info[s.addr[ip]].fInTried ==>
                  exists slot :: SlotsOf(t.new_, t.addr[ip]) == {slot} && HighestSlot(s.new_, s.addr[ip], slot))
  {
    hide Inv, NewList, TriedList, Row, RandomOk, Homes, Written, HighestSlot, Load, Dump, SlotsOf;
    LoadExact(h, s, asmapVersion);
    WrittenIds(h, s);
    var t := Load(h, Dump(s, asmapVersion), asmapVersion).state;
    forall ip | ip in s.addr
      ensures SameEntry(s, t, ip)
      ensures !s.info[s.addr[ip]].fInTried ==>
                exists slot :: SlotsOf(t.new_, t.addr[ip]) == {slot} && HighestSlot(s.new_, s.addr[ip], slot)
    {
      AddrOf(h, s, ip);
      var k :| 0 <= k < |Written(s)| && Written(s)[k] == s.addr[ip];
      SameReloaded(h, s, t, ip, k);
      if !s.info[s.addr[ip]].fInTried {
        var slot := OneSlot(h, t, k);
      }
    }
    forall ip | ip in t.addr
      ensures ip in s.addr
    {
      AddrOf(h, t, ip);
      SourceKnown(h, s, t, t.addr[ip]);
    }
    assert t.addr.Keys == s.addr.Keys;
    SameCounts(h, s, t);
  }

  lemma SameReloaded(h: Hashes, s: State, t: State, ip: NetAddr, k: nat)
    requires Consistent(h, s) && Consistent(h, t) && s.nIdCount >= 0 && ip in s.addr && s.addr[ip] in s.info
    requires k < |Written(s)| && Written(s)[k] == s.addr[ip] && Reloaded(s, t, k)
    ensures SameEntry(s, t, ip) && t.addr[ip] == k
  {
    hide Inv, Written;
    AddrOf(h, s, ip);
    assert t.info[k].address == Stored(t.info[k]).address == Stored(s.info[s.addr[ip]]).address;
    IpOf(h, t, k);
  }

  lemma SourceKnown(h: Hashes, s: State, t: State, k: int)
    requires Consistent(h, s) && s.nIdCount >= 0 && 0 <= k < |Written(s)| && Written(s)[k] in s.info && Reloaded(s, t, k)
    ensures t.info[k].address.service.ip in s.addr
  {
    hide Inv, Written;
    assert t.info[k].address == Stored(t.info[k]).address == Stored(s.info[Written(s)[k]]).address;
    IpOf(h, s, Written(s)[k]);
  }

  lemma OneSlot(h: Hashes, t: State, k: int) returns (slot: Slot)
    requires Consistent(h, t) && k in t.info && !t.info[k].fInTried && t.info[k].nRefCount == 1
    ensures SlotsOf(t.new_, k) == {slot} && slot in t.new_ && t.new_[slot] == k
  {
    assert |SlotsOf(t.new_, k)| == 1;
    slot :| slot in SlotsOf(t.new_, k);
    Singleton(SlotsOf(t.new_, k), slot);
  }

  lemma Singleton<T>(s: set<T>, x: T)
    requires |s| == 1 && x in s
    ensures s == {x}
  {
    assert |s - {x}| == 0;
  }

  lemma {:induction false} RangeSize(s: set<int>, a: int, b: int)
    requires a <= b && forall k :: k in s <==> a <= k < b
    ensures |s| == b - a
    decreases b - a
  {
    if a < b {
      RangeSize(s - {a}, a + 1, b);
    } else {
      assert s == {};
    }
  }

  lemma SameCounts(h: Hashes, s: State, t: State)
    requires Consistent(h, s) && Consistent(h, t) && s.nIdCount >= 0
    requires (forall k :: k in t.info <==> 0 <= k < |Written(s)|) && forall k :: k in t.info ==> Written(s)[k] in s.info && Reloaded(s, t, k)
    ensures t.nNew == s.nNew && t.nTried == s.nTried
  {
    hide NewList, TriedList, RandomOk, AddrOk, NewTableOk, TriedTableOk, RefsOk, Written;
    WrittenIds(h, s);
    CountsFit(h, s);
    forall k
      ensures k in NewIds(t.info) <==> 0 <= k < s.nNew
      ensures k in TriedIds(t.info) <==> s.nNew <= k < s.nNew + s.nTried
    {
      if k in t.info {
        assert Reloaded(s, t, k);
      }
    }
    assert NewIds(t.info) - {} == NewIds(t.info);
    RangeSize(NewIds(t.info), 0, s.nNew);
    RangeSize(TriedIds(t.info), s.nNew, s.nNew + s.nTried);
  }

  /** Serialize, then Unserialize into another manager with the same key and asmap. */
  method Reload(m: CAddrMan, asmapVersion: nat) returns (ok: bool, r: CAddrMan)
    requires m.Valid()
    ensures ok && r.Valid() && r.mapAddr.Keys == m.mapAddr.Keys && r.nNew == m.nNew && r.nTried == m.nTried
    ensures forall ip :: ip in m.mapAddr ==> SameEntry(m.St(), r.St(), ip)
  {
    hide Inv, TableOf, Load, Dump, SameEntry;
    EmptyIdRange(m.h, m.St());
    RoundTrip(m.h, m.St(), asmapVersion);
    var f := Serialize(m, asmapVersion);
    r := new CAddrMan(m.h);
    ok := Unserialize(r, f, asmapVersion);
  }
}
