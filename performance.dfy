/**
 * The trade-level statistics of the performance report: the number of trades,
 * the fraction that made money, and the profit factor.
 */
module Performance {
  import opened Wrappers
  import opened Trades

  /** The number of trades with a positive profit (`np.where(profit > 0, 1, 0).sum()`). */
  function Wins(trades: seq<Trade>): (n: nat)
    ensures n <= |trades|
    ensures n == |trades| <==> forall k :: 0 <= k < |trades| ==> trades[k].profit > 0.0
    ensures n == 0 <==> forall k :: 0 <= k < |trades| ==> trades[k].profit <= 0.0
  {
    if trades == [] then 0
    else
      assert forall k :: 0 < k < |trades| ==> trades[k] == trades[1..][k - 1];
      (if trades[0].profit > 0.0 then 1 else 0) + Wins(trades[1..])
  }

  /**
   * The mean of the win indicator: undefined with no trades, otherwise a
   * fraction that is 1 exactly when every trade wins and 0 when none does.
   */
  function WinFraction(trades: seq<Trade>): (r: Option<real>)
    ensures r.None? <==> |trades| == 0
    ensures r.Some? ==> 0.0 <= r.value <= 1.0
    ensures r.Some? ==> (r.value == 1.0 <==> forall k :: 0 <= k < |trades| ==> trades[k].profit > 0.0)
    ensures r.Some? ==> (r.value == 0.0 <==> forall k :: 0 <= k < |trades| ==> trades[k].profit <= 0.0)
  {
    if |trades| == 0 then None
    else
      var wins, n := Wins(trades) as real, |trades| as real;
      Fraction(wins, n);
      Some(wins / n)
  }

  /** A count over a larger positive count is a fraction in [0, 1], at its ends exactly when the counts are 0 or equal. */
  lemma Fraction(part: real, whole: real)
    requires 0.0 <= part <= whole && whole > 0.0
    ensures 0.0 <= part / whole <= 1.0
    ensures part / whole == 1.0 <==> part == whole
    ensures part / whole == 0.0 <==> part == 0.0
  {
    var q := part / whole;
    assert q * whole == part;
  }

  /** The sum of the positive profits. */
  function GrossProfit(trades: seq<Trade>): (g: real)
    ensures g >= 0.0
    ensures g == 0.0 <==> forall k :: 0 <= k < |trades| ==> trades[k].profit <= 0.0
  {
    if trades == [] then 0.0
    else
      assert forall k :: 0 < k < |trades| ==> trades[k] == trades[1..][k - 1];
      (if trades[0].profit > 0.0 then trades[0].profit else 0.0) + GrossProfit(trades[1..])
  }

  /** The sum of the negative profits. */
  function GrossLoss(trades: seq<Trade>): (l: real)
    ensures l <= 0.0
    ensures l == 0.0 <==> forall k :: 0 <= k < |trades| ==> trades[k].profit >= 0.0
  {
    if trades == [] then 0.0
    else
      assert forall k :: 0 < k < |trades| ==> trades[k] == trades[1..][k - 1];
      (if trades[0].profit < 0.0 then trades[0].profit else 0.0) + GrossLoss(trades[1..])
  }

  /**
   * Gross profit over gross loss, sign-adjusted. Undefined when no trade
   * loses (the source then divides by zero); otherwise non-negative, and
   * positive exactly when some trade wins.
   */
  function ProfitFactor(trades: seq<Trade>): (r: Option<real>)
    ensures r.None? <==> forall k :: 0 <= k < |trades| ==> trades[k].profit >= 0.0
    ensures r.Some? ==> r.value >= 0.0
    ensures r.Some? ==> (r.value > 0.0 <==> Wins(trades) > 0)
  {
    var loss := GrossLoss(trades);
    if loss == 0.0 then None
    else
      var gain := GrossProfit(trades);
      Ratio(gain, loss);
      Some(-gain / loss)
  }

  /** A non-negative gain over a negative loss, sign-adjusted, is non-negative and positive exactly when the gain is. */
  lemma Ratio(gain: real, loss: real)
    requires gain >= 0.0 && loss < 0.0
    ensures -gain / loss >= 0.0
    ensures -gain / loss > 0.0 <==> gain > 0.0
  {
    var q := -gain / loss;
    assert q * loss == -gain;
    assert q * -loss == gain;
  }

  /** When every one of some trades loses, the win fraction and the profit factor are both 0. */
  lemma AllLosing(trades: seq<Trade>)
    requires |trades| > 0 && forall k :: 0 <= k < |trades| ==> trades[k].profit < 0.0
    ensures WinFraction(trades) == Some(0.0) && ProfitFactor(trades) == Some(0.0)
  {
    assert trades[0].profit < 0.0;
  }
}
