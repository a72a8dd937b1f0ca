/**
 * The signal stage: long (1) when the first indicator is above the second,
 * flat (0) otherwise. A comparison involving an undefined indicator is false,
 * so an undefined indicator always yields a flat signal.
 */
module Signals {
  import opened Wrappers
  import opened Indicators

  /** A position: 1 is long, 0 is flat. */
  type Bit = b: int | 0 <= b <= 1

  /** `a > b` where either side may be undefined; undefined compares false. */
  predicate Above(a: Option<real>, b: Option<real>)
  {
    a.Some? && b.Some? && a.value > b.value
  }

  /** The element-wise long/flat signal of two aligned indicator series. */
  function Signal(indicator1: seq<Option<real>>, indicator2: seq<Option<real>>): (r: seq<Bit>)
    requires |indicator1| == |indicator2|
    ensures |r| == |indicator1|
    ensures forall i :: 0 <= i < |r| ==>
      (r[i] == 1 <==> indicator1[i].Some? && indicator2[i].Some? && indicator1[i].value > indicator2[i].value)
  {
    seq(|indicator1|, i requires 0 <= i < |indicator1| => if Above(indicator1[i], indicator2[i]) then 1 else 0)
  }

  /** The signal of the backtest: a `window1`-row average against a `window2`-row average of the closes. */
  function Crossover(closes: seq<real>, window1: nat, window2: nat): (r: seq<Bit>)
    ensures |r| == |closes|
  {
    Signal(Sma(closes, window1), Sma(closes, window2))
  }

  /** During either average's warm-up the signal is flat. */
  lemma WarmUpIsFlat(closes: seq<real>, window1: nat, window2: nat, i: nat)
    requires i < |closes|
    requires !HasWindow(window1, i) || !HasWindow(window2, i)
    ensures Crossover(closes, window1, window2)[i] == 0
  {
  }

  /** The first row is always flat: either an average is undefined there or both equal the first close. */
  lemma FirstRowIsFlat(closes: seq<real>, window1: nat, window2: nat)
    requires |closes| > 0
    ensures Crossover(closes, window1, window2)[0] == 0
  {
    if window1 == 1 && window2 == 1 {
      SmaUnitWindow(closes, 0);
    }
  }

  /** Comparing an average with itself never goes long. */
  lemma SameWindowNeverLong(closes: seq<real>, window: nat)
    ensures forall i :: 0 <= i < |closes| ==> Crossover(closes, window, window)[i] == 0
  {
  }

  /** Row i of the signal depends only on closes up to row i. */
  lemma CrossoverCausal(closes: seq<real>, window1: nat, window2: nat, n: nat)
    requires n <= |closes|
    ensures Crossover(closes[..n], window1, window2) == Crossover(closes, window1, window2)[..n]
  {
    SmaCausal(closes, window1, n);
    SmaCausal(closes, window2, n);
    var a := Crossover(closes[..n], window1, window2);
    var b := Crossover(closes, window1, window2)[..n];
    assert |a| == |b|;
    forall i | 0 <= i < n ensures a[i] == b[i] {
      assert Sma(closes[..n], window1)[i] == Sma(closes, window1)[i];
      assert Sma(closes[..n], window2)[i] == Sma(closes, window2)[i];
    }
  }
}
