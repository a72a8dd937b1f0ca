/**
 * The backtest itself: the pipeline from closes to strategy returns, trades
 * and the trade-level report, computed step by step as the source builds its
 * frame one column at a time and rebinds its trade list through two slices.
 */
module Backtest {
  import opened Wrappers
  import opened Indicators
  import opened Signals
  import opened Returns
  import opened Trades
  import opened Performance

  /** The trade-level part of the performance report. */
  datatype Report = Report(winFraction: Option<real>, profitFactor: Option<real>, tradeCount: nat)

  /** What a backtest returns: the strategy's daily returns, its trades and its report. */
  datatype BacktestResult = BacktestResult(strategicReturn: seq<Option<real>>, trades: seq<Trade>, performance: Report)

  /**
   * Backtest a `parameters1`-row average against a `parameters2`-row average
   * of positive closes, oldest first, charging `commission` per round trip
   * (no commission unless one is given).
   * Fails exactly when the signal is never long; otherwise every trade is a
   * long run of the signal closed by a flat row, opened after row 0, and
   * there is one trade per fall of the signal from long to flat.
   */
  method Backtest(closes: seq<real>, parameters1: nat, parameters2: nat, commission: real := 0.0)
    returns (r: Result<BacktestResult, Error>)
    requires PositivePrices(closes)
    ensures var signal := Crossover(closes, parameters1, parameters2);
      r.Failure? <==> forall i :: 0 <= i < |closes| ==> signal[i] == 0
    ensures r.Failure? ==> r.error == (if |closes| == 0 then NoChangeRows else NoRowsAfterLeadingTrim)
    ensures r.Success? ==>
      var signal := Crossover(closes, parameters1, parameters2);
      var trades := r.value.trades;
      && r.value.strategicReturn == StrategicReturn(DailyReturn(closes), signal)
      && ExtractTrades(signal, closes, commission) == Success(trades)
      && r.value.performance == Report(WinFraction(trades), ProfitFactor(trades), |trades|)
      && TradesOfSignal(signal, closes, commission, trades)
      && (forall k :: 0 <= k < |trades| ==> trades[k].entryDate > 0)
  {
    var dailyReturn := DailyReturn(closes);
    var indicator1 := Sma(closes, parameters1);
    var indicator2 := Sma(closes, parameters2);
    var signal := Signal(indicator1, indicator2);
    var strategicReturn := StrategicReturn(dailyReturn, signal);
    assert signal == Crossover(closes, parameters1, parameters2);

    var tradeList := ChangePoints(signal, closes);
    ghost var changeRows := tradeList;
    if |tradeList| == 0 {
      ChangePointsFacts(signal, closes);
      ExtractTradesCorrect(signal, closes, commission);
      return Failure(NoChangeRows);
    }
    if tradeList[0].signal == 0 {
      tradeList := tradeList[1..];
    }
    if |tradeList| == 0 {
      ChangePointsFacts(signal, closes);
      ExtractTradesCorrect(signal, closes, commission);
      return Failure(NoRowsAfterLeadingTrim);
    }
    if tradeList[|tradeList| - 1].signal == 1 {
      tradeList := tradeList[..|tradeList| - 1];
    }
    assert Trim(changeRows) == Success(tradeList);

    TrimmedChangePointsSplit(signal, closes);
    var buyTradeList := Select(tradeList, 1);
    var sellTradeList := Select(tradeList, 0);
    var allTrades := Pair(buyTradeList, sellTradeList, commission);
    assert ExtractTrades(signal, closes, commission) == Success(allTrades);
    ExtractTradesCorrect(signal, closes, commission);

    FirstRowIsFlat(closes, parameters1, parameters2);
    forall k | 0 <= k < |allTrades| ensures allTrades[k].entryDate > 0 {
      assert TradeOfRun(signal, closes, commission, allTrades[k]);
    }

    var tradesNum := |allTrades|;
    var winPercent := WinFraction(allTrades);
    var profitFactor := ProfitFactor(allTrades);
    r := Success(BacktestResult(strategicReturn, allTrades, Report(winPercent, profitFactor, tradesNum)));
  }
}
