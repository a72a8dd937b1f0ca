/**
 * The return stage: the close-to-close percentage change and the strategy's
 * return, which earns the day's change only when the previous row's signal
 * was long (the signal shifted by one row, so no row trades on its own close).
 */
module Returns {
  import opened Wrappers
  import opened Signals

  /** Every close is a positive price. */
  predicate PositivePrices(closes: seq<real>)
  {
    forall i :: 0 <= i < |closes| ==> closes[i] > 0.0
  }

  /** `pct_change`: the relative change from the previous close; undefined on row 0. */
  function DailyReturn(closes: seq<real>): (r: seq<Option<real>>)
    requires PositivePrices(closes)
    ensures |r| == |closes|
  {
    seq(|closes|, i requires 0 <= i < |closes| =>
      if i == 0 then None else Some(closes[i] / closes[i - 1] - 1.0))
  }

  /** `shift(1)`: row i holds the signal of row i - 1; undefined on row 0. */
  function Lag(signal: seq<Bit>): (r: seq<Option<real>>)
    ensures |r| == |signal|
  {
    seq(|signal|, i requires 0 <= i < |signal| => if i == 0 then None else Some(signal[i - 1] as real))
  }

  /** Product of two possibly undefined values; undefined if either is. */
  function Times(a: Option<real>, b: Option<real>): Option<real>
  {
    if a.Some? && b.Some? then Some(a.value * b.value) else None
  }

  /** The strategy return: the daily return times the lagged signal, row by row. */
  function StrategicReturn(dailyReturn: seq<Option<real>>, signal: seq<Bit>): (r: seq<Option<real>>)
    requires |dailyReturn| == |signal|
    ensures |r| == |signal|
  {
    var lagged := Lag(signal);
    seq(|signal|, i requires 0 <= i < |signal| => Times(dailyReturn[i], lagged[i]))
  }

  /**
   * Row by row: undefined on row 0, and afterwards the price change times the
   * previous row's position.
   */
  lemma StrategicReturnAt(closes: seq<real>, signal: seq<Bit>, i: nat)
    requires PositivePrices(closes) && |signal| == |closes| && i < |closes|
    ensures var r := StrategicReturn(DailyReturn(closes), signal);
      (i == 0 ==> r[i].None?) &&
      (i >= 1 ==> r[i] == Some((closes[i] / closes[i - 1] - 1.0) * signal[i - 1] as real))
  {
  }

  /** A flat position earns nothing; a long one earns the price change, recovering the close from the return. */
  lemma StrategicReturnFollowsPosition(closes: seq<real>, signal: seq<Bit>, i: nat)
    requires PositivePrices(closes) && |signal| == |closes| && 1 <= i < |closes|
    ensures var r := StrategicReturn(DailyReturn(closes), signal);
      r[i].Some? &&
      (signal[i - 1] == 0 ==> r[i].value == 0.0) &&
      (signal[i - 1] == 1 ==> closes[i] == closes[i - 1] * (1.0 + r[i].value))
  {
    var r := StrategicReturn(DailyReturn(closes), signal);
    StrategicReturnAt(closes, signal, i);
    if signal[i - 1] == 1 {
      assert r[i].value == closes[i] / closes[i - 1] - 1.0;
      assert closes[i - 1] * (closes[i] / closes[i - 1]) == closes[i];
    }
  }

  /**
   * No look-ahead: the backtest's return on row i is the price change times a
   * position computed from the closes strictly before row i.
   */
  lemma NoLookAhead(closes: seq<real>, window1: nat, window2: nat, i: nat)
    requires PositivePrices(closes) && 1 <= i < |closes|
    ensures StrategicReturn(DailyReturn(closes), Crossover(closes, window1, window2))[i]
         == Some((closes[i] / closes[i - 1] - 1.0) * Crossover(closes[..i], window1, window2)[i - 1] as real)
  {
    var signal := Crossover(closes, window1, window2);
    StrategicReturnAt(closes, signal, i);
    CrossoverCausal(closes, window1, window2, i);
    assert Crossover(closes[..i], window1, window2)[i - 1] == signal[i - 1];
  }
}
