/** Writing the address manager to disk and reading it back (Serialize and Unserialize of src/addrman.h). */
module AddrFile {
  import opened AddrState
  import opened AddrMoves
  import opened AddrMan

  /** The part of an entry that is written. */
  datatype Record = Record(address: Address, source: NetAddr, nLastSuccess: int, nAttempts: int)

  function Stored(i: Info): Record {
    Record(i.address, i.source, i.nLastSuccess, i.nAttempts)
  }

  /** An entry as it is read: everything else is at its default. */
  function Restored(r: Record): Info {
    NewInfo(r.address, r.source).(nLastSuccess := r.nLastSuccess, nAttempts := r.nAttempts)
  }

  /** The file, field by field, in the order of the stream. */
  datatype File = File(
    nVersion: nat,
    nKeySize: nat,
    nNew: int,
    nTried: int,
    nUBuckets: int,
    newRecords: seq<Record>,
    triedRecords: seq<Record>,
    buckets: seq<seq<int>>,
    asmapVersion: nat)

  const BIT30 := 0x4000_0000

  /** x ^ (1 << 30) */
  function Toggled(x: int): int {
    if (x / BIT30) % 2 == 0 then x + BIT30 else x - BIT30
  }

  // ---- what Serialize writes ----

  /** The ids below n that are in the "new" table, in the order of mapInfo. */
  function NewList(info: map<int, Info>, n: nat): seq<int> {
    if n == 0 then [] else NewList(info, n - 1) + if n - 1 in info && info[n - 1].nRefCount != 0 then [n - 1] else []
  }

  function TriedList(info: map<int, Info>, n: nat): seq<int> {
    if n == 0 then [] else TriedList(info, n - 1) + if n - 1 in info && info[n - 1].fInTried then [n - 1] else []
  }

  function Records(info: map<int, Info>, ids: seq<int>): (r: seq<Record>)
    requires forall i :: 0 <= i < |ids| ==> ids[i] in info
    ensures |r| == |ids| && forall i :: 0 <= i < |ids| ==> r[i] == Stored(info[ids[i]])
  {
    seq(|ids|, i requires 0 <= i < |ids| => Stored(info[ids[i]]))
  }

  /** The indices written for the first n positions of a bucket; mapUnkIds[id] is the number of "new" ids below id. */
  function Row(s: State, bucket: nat, n: nat): seq<int> {
    if n == 0 then [] else
      Row(s, bucket, n - 1) +
      if (bucket, n - 1) in s.new_ && s.new_[(bucket, n - 1)] >= 0 then [|NewList(s.info, s.new_[(bucket, n - 1)])|] else []
  }

  lemma {:induction false} NewListIds(info: map<int, Info>, n: nat)
    ensures forall i :: 0 <= i < |NewList(info, n)| ==>
              0 <= NewList(info, n)[i] < n && NewList(info, n)[i] in info && info[NewList(info, n)[i]].nRefCount != 0
    ensures forall i, j :: 0 <= i < j < |NewList(info, n)| ==> NewList(info, n)[i] < NewList(info, n)[j]
  {
    if n > 0 {
      NewListIds(info, n - 1);
    }
  }

  lemma {:induction false} TriedListIds(info: map<int, Info>, n: nat)
    ensures forall i :: 0 <= i < |TriedList(info, n)| ==>
              0 <= TriedList(info, n)[i] < n && TriedList(info, n)[i] in info && info[TriedList(info, n)[i]].fInTried
    ensures forall i, j :: 0 <= i < j < |TriedList(info, n)| ==> TriedList(info, n)[i] < TriedList(info, n)[j]
  {
    if n > 0 {
      TriedListIds(info, n - 1);
    }
  }

  /** The index of an id is its position in the list. */
  lemma {:induction false} NewIndex(info: map<int, Info>, n: nat, id: nat)
    requires id < n && id in info && info[id].nRefCount != 0
    ensures |NewList(info, id)| < |NewList(info, n)| && NewList(info, n)[|NewList(info, id)|] == id
  {
    if id < n - 1 {
      NewIndex(info, n - 1, id);
    }
  }

  lemma {:induction false} TriedIndex(info: map<int, Info>, n: nat, id: nat) returns (i: nat)
    requires id < n && id in info && info[id].fInTried
    ensures i < |TriedList(info, n)| && TriedList(info, n)[i] == id
  {
    if id < n - 1 {
      i := TriedIndex(info, n - 1, id);
    } else {
      i := |TriedList(info, n - 1)|;
    }
  }

  ghost function Ids(s: seq<int>): set<int> {
    set x | x in s
  }

  lemma {:induction false} IncreasingSize(s: seq<int>)
    requires forall i, j :: 0 <= i < j < |s| ==> s[i] < s[j]
    ensures |Ids(s)| == |s|
  {
    if s != [] {
      var t := s[..|s| - 1];
      IncreasingSize(t);
      var x := s[|s| - 1];
      assert s == t + [x] && x !in t;
      assert Ids(s) == Ids(t) + {x};
    }
  }

  lemma NewListExact(info: map<int, Info>, n: nat)
    requires forall id :: id in info ==> 0 <= id < n && (info[id].fInTried <==> info[id].nRefCount == 0)
    ensures Ids(NewList(info, n)) == NewIds(info) && |NewList(info, n)| == |NewIds(info)|
  {
    hide NewList;
    NewListIds(info, n);
    IncreasingSize(NewList(info, n));
    forall id
      ensures id in NewIds(info) <==> id in Ids(NewList(info, n))
    {
      if id in NewIds(info) {
        NewIndex(info, n, id);
      }
    }
  }

  lemma TriedListExact(info: map<int, Info>, n: nat)
    requires forall id :: id in info ==> 0 <= id < n
    ensures Ids(TriedList(info, n)) == TriedIds(info) && |TriedList(info, n)| == |TriedIds(info)|
  {
    hide TriedList;
    TriedListIds(info, n);
    IncreasingSize(TriedList(info, n));
    forall id
      ensures id in TriedIds(info) <==> id in Ids(TriedList(info, n))
    {
      if id in TriedIds(info) {
        var _ := TriedIndex(info, n, id);
      }
    }
  }

  /** In a consistent table the lists are the "new" and the "tried" set, so that the counts written are right. */
  lemma ListsExact(h: Hashes, s: State)
    requires Consistent(h, s)
    ensures Ids(NewList(s.info, s.nIdCount)) == NewIds(s.info) && |NewList(s.info, s.nIdCount)| == s.nNew
    ensures Ids(TriedList(s.info, s.nIdCount)) == TriedIds(s.info) && |TriedList(s.info, s.nIdCount)| == s.nTried
  {
    hide NewList, TriedList, RandomOk, AddrOk, NewTableOk, TriedTableOk, Ids;
    NewListExact(s.info, s.nIdCount);
    TriedListExact(s.info, s.nIdCount);
    assert NewIds(s.info) - {} == NewIds(s.info);
  }

  /** The whole file for a state. */
  ghost function Dump(s: State, asmapVersion: nat): File
    requires s.nIdCount >= 0
  {
    var n := s.nIdCount;
    NewListIds(s.info, n);
    TriedListIds(s.info, n);
    File(2, 32, s.nNew, s.nTried, Toggled(NEW_BUCKET_COUNT), Records(s.info, NewList(s.info, n)), Records(s.info, TriedList(s.info, n)),
         seq(NEW_BUCKET_COUNT, b requires 0 <= b => Row(s, b, BUCKET_SIZE)), asmapVersion)
  }

  /** CAddrMan::Serialize; its two assertions on the counts hold. */
  method Serialize(m: CAddrMan, asmapVersion: nat) returns (f: File)
    requires m.Valid()
    ensures m.nIdCount >= 0 && f == Dump(m.St(), asmapVersion)
  {
    hide Inv, TableOf, TriedList, NewList, Row, RandomOk, AddrOk, TriedTableOk, RefsOk, NewTableOk, Lists, Indexed;
    EmptyIdRange(m.h, m.St());
    InvParts(m.h, m.St(), {}, {});
    ListsExact(m.h, m.St());
    var unk, newRecords := WriteNew(m.mapInfo, m.nIdCount, m.nNew);
    var triedRecords := WriteTried(m.mapInfo, m.nIdCount, m.nTried);
    var buckets: seq<seq<int>> := [];
    for bucket := 0 to NEW_BUCKET_COUNT
      invariant |buckets| == bucket && forall b :: 0 <= b < bucket ==> buckets[b] == Row(m.St(), b, BUCKET_SIZE)
    {
      var row := WriteRow(m, unk, bucket);
      buckets := buckets + [row];
    }
    f := File(2, 32, m.nNew, m.nTried, Toggled(NEW_BUCKET_COUNT), newRecords, triedRecords, buckets, asmapVersion);
    SameDump(m.St(), f, asmapVersion);
  }

  lemma SameDump(s: State, f: File, asmapVersion: nat)
    requires s.nIdCount >= 0
    requires Lists(s.info, NewList(s.info, s.nIdCount), f.newRecords) && Lists(s.info, TriedList(s.info, s.nIdCount), f.triedRecords)
    requires |f.buckets| == NEW_BUCKET_COUNT && forall b :: 0 <= b < NEW_BUCKET_COUNT ==> f.buckets[b] == Row(s, b, BUCKET_SIZE)
    requires f == File(2, 32, s.nNew, s.nTried, Toggled(NEW_BUCKET_COUNT), f.newRecords, f.triedRecords, f.buckets, asmapVersion)
    ensures f == Dump(s, asmapVersion)
  {
    hide TriedList, NewList, Row;
    var d := Dump(s, asmapVersion);
    assert f.newRecords == d.newRecords;
    assert f.triedRecords == d.triedRecords;
    assert f.buckets == d.buckets;
  }

  /** The "new" entries; the assertion on nNew holds. */
  method WriteNew(info: map<int, Info>, n: nat, nNew: int) returns (unk: map<int, int>, records: seq<Record>)
    requires |NewList(info, n)| == nNew && forall id :: id in info ==> 0 <= id < n
    ensures Indexed(info, unk, n) && Lists(info, NewList(info, n), records)
  {
    hide Lists, Indexed;
    unk, records := map[], [];
    IndexedNone(info, unk);
    for id := 0 to n
      invariant Indexed(info, unk, id) && Lists(info, NewList(info, id), records)
    {
      assert NewList(info, id + 1) == NewList(info, id) + if id in info && info[id].nRefCount != 0 then [id] else [];
      assert NewList(info, id) + [] == NewList(info, id);
      if id in info {
        IndexedStep(info, unk, id, NewList(info, id), records);
        unk := unk[id := |records|];
        if info[id].nRefCount != 0 {
          NewIndex(info, n, id);
          ListsStep(info, NewList(info, id), records, id);
          assert |records| != nNew;
          records := records + [Stored(info[id])];
        }
      } else {
        IndexedSkip(info, unk, id);
      }
    }
  }

  /** mapUnkIds knows every id below n. */
  ghost predicate Indexed(info: map<int, Info>, unk: map<int, int>, n: int) {
    forall id :: id in info && id < n ==> id in unk && id >= 0 && unk[id] == |NewList(info, id)|
  }

  lemma IndexedNone(info: map<int, Info>, unk: map<int, int>)
    requires forall id :: id in info ==> 0 <= id
    ensures Indexed(info, unk, 0) && Lists(info, [], [])
  {
  }

  lemma IndexedStep(info: map<int, Info>, unk: map<int, int>, id: nat, ids: seq<int>, records: seq<Record>)
    requires Indexed(info, unk, id) && ids == NewList(info, id) && Lists(info, ids, records)
    ensures Indexed(info, unk[id := |records|], id + 1)
  {
    hide NewList;
  }

  lemma {:induction false} IndexedSkip(info: map<int, Info>, unk: map<int, int>, id: nat)
    requires Indexed(info, unk, id) && id !in info
    ensures Indexed(info, unk, id + 1)
  {
    hide NewList;
  }

  ghost predicate Lists(info: map<int, Info>, ids: seq<int>, records: seq<Record>) {
    && |records| == |ids|
    && (forall i :: 0 <= i < |ids| ==> ids[i] in info && records[i] == Stored(info[ids[i]]))
  }

  lemma ListsStep(info: map<int, Info>, ids: seq<int>, records: seq<Record>, id: int)
    requires Lists(info, ids, records) && id in info
    ensures Lists(info, ids + [id], records + [Stored(info[id])]) && |records| == |ids|
  {
  }

  method WriteTried(info: map<int, Info>, n: nat, nTried: int) returns (records: seq<Record>)
    requires |TriedList(info, n)| == nTried
    ensures Lists(info, TriedList(info, n), records)
  {
    records := [];
    for id := 0 to n
      invariant Lists(info, TriedList(info, id), records)
    {
      if id in info && info[id].fInTried {
        ListsStep(info, TriedList(info, id), records, id);
        TriedGrows(info, id + 1, n);
        assert |records| != nTried;
        records := records + [Stored(info[id])];
      }
    }
  }

  lemma {:induction false} TriedGrows(info: map<int, Info>, a: nat, b: nat)
    requires a <= b
    ensures |TriedList(info, a)| <= |TriedList(info, b)|
  {
    if a < b {
      TriedGrows(info, a, b - 1);
    }
  }

  method WriteRow(m: CAddrMan, unk: map<int, int>, bucket: nat) returns (row: seq<int>)
    requires m.Valid() && bucket < NEW_BUCKET_COUNT && Indexed(m.mapInfo, unk, m.nIdCount)
    ensures row == Row(m.St(), bucket, BUCKET_SIZE)
  {
    hide Inv, TableOf, Indexed, Row;
    ghost var s := m.St();
    row := [];
    RowNone(s, bucket);
    for i := 0 to BUCKET_SIZE
      invariant row == Row(s, bucket, i)
    {
      TableAt(m.vvNew, bucket, i);
      RowStep(m.h, s, bucket, i, unk);
      if m.vvNew[bucket, i] != -1 {
        row := row + [unk[m.vvNew[bucket, i]]];
      }
    }
  }

  lemma RowNone(s: State, bucket: nat)
    ensures Row(s, bucket, 0) == []
  {
  }

  lemma RowStep(h: Hashes, s: State, bucket: nat, i: nat, unk: map<int, int>)
    requires Consistent(h, s) && Indexed(s.info, unk, s.nIdCount)
    ensures (bucket, i) !in s.new_ ==> Row(s, bucket, i + 1) == Row(s, bucket, i)
    ensures (bucket, i) in s.new_ ==> s.new_[(bucket, i)] in unk && Row(s, bucket, i + 1) == Row(s, bucket, i) + [unk[s.new_[(bucket, i)]]]
  {
    hide NewList;
    if (bucket, i) in s.new_ {
      var id := s.new_[(bucket, i)];
      assert id in s.info;
    }
  }
}
