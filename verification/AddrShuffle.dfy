/** The order in which GetAddr_ of src/addrman.cpp looks at the entries. */
module AddrShuffle {

  function Exchanged(r: seq<int>, i: nat, j: nat): (q: seq<int>)
    requires i < |r| && j < |r|
    ensures |q| == |r|
  {
    r[i := r[j]][j := r[i]]
  }

  /** A place that is not fixed yet. */
  function Place(draw: nat, n: nat, size: nat): (k: nat)
    requires n < size
    ensures n <= k < size
  {
    draw % (size - n) + n
  }

  /** A Fisher-Yates shuffle after n draws: each place is exchanged with one of those not fixed yet. */
  function Shuffled(r: seq<int>, draws: nat -> nat, n: nat): (q: seq<int>)
    requires n <= |r|
    ensures |q| == |r|
  {
    if n == 0 then r else Exchanged(Shuffled(r, draws, n - 1), n - 1, Place(draws(n - 1), n - 1, |r|))
  }

  lemma ShuffledNot(r: seq<int>, draws: nat -> nat)
    ensures Shuffled(r, draws, 0) == r
  {
  }

  lemma ShuffledNext(r: seq<int>, draws: nat -> nat, n: nat, k: nat)
    requires n < |r| && k == draws(n) % (|r| - n) + n
    ensures n <= k < |r| && Shuffled(r, draws, n + 1) == Exchanged(Shuffled(r, draws, n), n, k)
  {
    assert k == Place(draws(n), n, |r|);
  }

  lemma {:induction false} SameDraws(r: seq<int>, a: nat -> nat, b: nat -> nat, n: nat)
    requires n <= |r| && forall i: nat :: i < n ==> a(i) == b(i)
    ensures Shuffled(r, a, n) == Shuffled(r, b, n)
  {
    hide Exchanged, Place;
    if n > 0 {
      SameDraws(r, a, b, n - 1);
    }
  }

  lemma {:induction false} ShuffledPermutes(r: seq<int>, draws: nat -> nat, n: nat)
    requires n <= |r|
    ensures multiset(Shuffled(r, draws, n)) == multiset(r)
  {
    hide Exchanged, Place;
    if n > 0 {
      ShuffledPermutes(r, draws, n - 1);
      ExchangedPermutes(Shuffled(r, draws, n - 1), n - 1, Place(draws(n - 1), n - 1, |r|));
    }
  }

  lemma ExchangedPermutes(r: seq<int>, i: nat, j: nat)
    requires i < |r| && j < |r|
    ensures multiset(Exchanged(r, i, j)) == multiset(r)
  {
  }

  /** Every order is possible: some draws shuffle to it. */
  lemma {:induction false} EveryOrder(r: seq<int>, p: seq<int>, n: nat) returns (draws: nat -> nat)
    requires multiset(p) == multiset(r) && n <= |r| == |p|
    ensures Shuffled(r, draws, n)[..n] == p[..n]
  {
    hide Exchanged, Place;
    if n == 0 {
      draws := i => 0;
    } else {
      var before := EveryOrder(r, p, n - 1);
      var q := Shuffled(r, before, n - 1);
      ShuffledPermutes(r, before, n - 1);
      var j := StillThere(q, p, n - 1);
      draws := i => if i == n - 1 then j - (n - 1) else before(i);
      SameDraws(r, before, draws, n - 1);
      PlaceOf(j, n - 1, |r|);
      ExchangedFirst(q, p, n - 1, j);
    }
  }

  lemma PlaceOf(j: nat, n: nat, size: nat)
    requires n <= j < size
    ensures Place(j - n, n, size) == j
  {
  }

  lemma StillThere(q: seq<int>, p: seq<int>, n: nat) returns (j: nat)
    requires n < |q| == |p| && multiset(q) == multiset(p) && q[..n] == p[..n]
    ensures n <= j < |q| && q[j] == p[n]
  {
    assert q == q[..n] + q[n..] && p == p[..n] + p[n..];
    assert p[n] == p[n..][0];
    assert multiset(q)[p[n]] == multiset(q[..n])[p[n]] + multiset(q[n..])[p[n]];
    assert multiset(p)[p[n]] == multiset(p[..n])[p[n]] + multiset(p[n..])[p[n]];
    assert p[n] in multiset(p[n..]);
    assert p[n] in q[n..];
    var i :| 0 <= i < |q[n..]| && q[n..][i] == p[n];
    j := n + i;
  }

  lemma ExchangedFirst(q: seq<int>, p: seq<int>, n: nat, j: nat)
    requires n <= j < |q| == |p| && q[..n] == p[..n] && q[j] == p[n]
    ensures Exchanged(q, n, j)[..n + 1] == p[..n + 1]
  {
    var e := Exchanged(q, n, j);
    assert e[..n] == q[..n];
    assert e[..n + 1] == e[..n] + [e[n]] && p[..n + 1] == p[..n] + [p[n]];
  }
}
