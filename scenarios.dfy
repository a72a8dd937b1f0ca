/**
 * Worked cases of the trade reconstruction, derived from the general
 * theorems rather than by evaluation.
 */
module Scenarios {
  import opened Wrappers
  import opened Indicators
  import opened Signals
  import opened Returns
  import opened Trades
  import opened Performance

  /** One up-cross followed by one down-cross yields exactly one trade, from the up-cross row to the down-cross row. */
  lemma OneCleanCross(closes: seq<real>, commission: real)
    requires |closes| == 7 && PositivePrices(closes)
    ensures var signal: seq<Bit> := [0, 0, 1, 1, 1, 0, 0];
      var r := ExtractTrades(signal, closes, commission);
      r.Success? && |r.value| == 1 && r.value[0].entryDate == 2 && r.value[0].exitDate == 5
      && r.value[0].entryPrice == closes[2] && r.value[0].exitPrice == closes[5]
  {
    var signal: seq<Bit> := [0, 0, 1, 1, 1, 0, 0];
    ExtractTradesFailsIffNeverLong(signal, closes, commission);
    assert signal[2] == 1;
    ExtractTradesCount(signal, closes, commission);
    assert FallingEdges(signal) == 1;
    ExtractTradesRuns(signal, closes, commission);
    var trade := ExtractTrades(signal, closes, commission).value[0];
    assert TradeOfRun(signal, closes, commission, trade);
    assert signal[trade.entryDate] == 1;
    assert trade.entryDate == 2;
    assert trade.exitDate == 5;
  }

  /** A two-row average of two closes is their midpoint. */
  lemma PairAverage(closes: seq<real>, i: nat)
    requires 1 <= i < |closes|
    ensures Sma(closes, 2)[i] == Some((closes[i - 1] + closes[i]) / 2.0)
  {
    var s := closes[i - 1 .. i + 1];
    assert s[..1][..0] == [];
    assert Sum(s[..1]) == closes[i - 1];
    assert Sum(s) == closes[i - 1] + closes[i];
  }

  /** The closes of the five-day example. */
  predicate FiveDayCloses(closes: seq<real>)
  {
    |closes| == 5 && closes[0] == 100.0 && closes[1] == 102.0 && closes[2] == 101.0
    && closes[3] == 105.0 && closes[4] == 103.0
  }

  /** Closes 100, 102, 101, 105, 103 against their two-row average give the signal 0, 1, 0, 1, 0. */
  lemma FiveDaySignal(closes: seq<real>)
    requires FiveDayCloses(closes)
    ensures Crossover(closes, 1, 2) == [0, 1, 0, 1, 0]
  {
    var fast, slow := Sma(closes, 1), Sma(closes, 2);
    forall i | 0 <= i < 5 ensures fast[i] == Some(closes[i]) {
      SmaUnitWindow(closes, i);
    }
    forall i | 1 <= i < 5 ensures slow[i] == Some((closes[i - 1] + closes[i]) / 2.0) {
      PairAverage(closes, i);
    }
    var signal := Crossover(closes, 1, 2);
    assert signal[0] == 0 && signal[1] == 1 && signal[2] == 0 && signal[3] == 1 && signal[4] == 0;
  }

  /** With that signal and no commission there are two losing trades, rows 1 to 2 and rows 3 to 4. */
  lemma FiveDayTrades(closes: seq<real>)
    requires FiveDayCloses(closes)
    ensures var r := ExtractTrades(Crossover(closes, 1, 2), closes, 0.0);
      && r.Success? && |r.value| == 2
      && r.value[0].entryDate == 1 && r.value[0].exitDate == 2
      && r.value[1].entryDate == 3 && r.value[1].exitDate == 4
      && r.value[0].profit < 0.0 && r.value[1].profit < 0.0
  {
    FiveDaySignal(closes);
    var signal := Crossover(closes, 1, 2);
    assert PositivePrices(closes);
    ExtractTradesFailsIffNeverLong(signal, closes, 0.0);
    assert signal[1] == 1;
    ExtractTradesCount(signal, closes, 0.0);
    assert FallingEdgesUpTo(signal, 2) == 0;
    assert FallingEdgesUpTo(signal, 3) == 1;
    assert FallingEdgesUpTo(signal, 4) == 1;
    assert FallingEdges(signal) == 2;
    ExtractTradesRuns(signal, closes, 0.0);
    ExtractTradesOrdered(signal, closes, 0.0);
    var trades := ExtractTrades(signal, closes, 0.0).value;
    assert TradeOfRun(signal, closes, 0.0, trades[0]) && TradeOfRun(signal, closes, 0.0, trades[1]);
    assert signal[trades[0].entryDate] == 1 && signal[trades[1].entryDate] == 1;
    assert trades[0].exitDate < trades[1].entryDate;
    assert trades[0].entryDate == 1 && trades[1].entryDate == 3;
    assert trades[0].exitDate == 2 && trades[1].exitDate == 4;
    assert trades[0].profit < 0.0 && trades[1].profit < 0.0;
  }

  /** So the win fraction is 0 and the profit factor is 0. */
  lemma FiveDayReport(closes: seq<real>)
    requires FiveDayCloses(closes)
    ensures var r := ExtractTrades(Crossover(closes, 1, 2), closes, 0.0);
      && r.Success?
      && WinFraction(r.value) == Some(0.0)
      && ProfitFactor(r.value) == Some(0.0)
  {
    FiveDayTrades(closes);
    var trades := ExtractTrades(Crossover(closes, 1, 2), closes, 0.0).value;
    AllLosing(trades);
  }
}
