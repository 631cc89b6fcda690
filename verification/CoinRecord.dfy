/** The unspent outputs of one transaction (class CCoins of src/coins.h). */
module CoinRecord {

  /** A transaction output; a spent output is null, which the source encodes as the amount -1. */
  datatype TxOut = TxOut(nValue: int, script: seq<nat>) {
    predicate IsNull() {
      nValue == -1
    }
  }

  const NULL_OUT := TxOut(-1, [])

  /** Drops the trailing spent outputs. */
  function Trim(vout: seq<TxOut>): (r: seq<TxOut>)
    ensures r <= vout
    ensures r == [] || !r[|r| - 1].IsNull()
    ensures forall i :: |r| <= i < |vout| ==> vout[i].IsNull()
  {
    if vout != [] && vout[|vout| - 1].IsNull() then Trim(vout[..|vout| - 1]) else vout
  }

  datatype Coins = Coins(fCoinBase: bool, vout: seq<TxOut>, nHeight: int, nVersion: int) {

    /** Every output is spent. */
    predicate IsPruned() {
      forall i :: 0 <= i < |vout| ==> vout[i].IsNull()
    }

    /** There is no trailing spent output. */
    predicate IsClean() {
      vout == [] || !vout[|vout| - 1].IsNull()
    }

    function Cleaned(): (r: Coins)
      ensures r.IsClean()
      ensures r.IsPruned() <==> IsPruned()
      ensures r.IsPruned() <==> r.vout == []
    {
      var r := this.(vout := Trim(vout));
      assert r.vout != [] ==> !vout[|r.vout| - 1].IsNull();
      r
    }
  }

  const EMPTY_COINS := Coins(false, [], 0, 0)

  /** The loop of CCoins::Cleanup. */
  method Cleanup(c: Coins) returns (r: Coins)
    ensures r == c.Cleaned()
  {
    var vout := c.vout;
    while |vout| > 0 && vout[|vout| - 1].IsNull()
      invariant Trim(vout) == Trim(c.vout)
    {
      vout := vout[..|vout| - 1];
    }
    r := c.(vout := vout);
  }

  /** Trimming stops exactly at the last unspent output. */
  lemma TrimUnique(vout: seq<TxOut>, n: nat)
    requires n <= |vout|
    requires n == 0 || !vout[n - 1].IsNull()
    requires forall i :: n <= i < |vout| ==> vout[i].IsNull()
    ensures Trim(vout) == vout[..n]
  {
  }
}
