/**
 * The indicator stage of the backtest: a simple moving average over the close
 * prices, computed as pandas' `rolling(window).mean()` does with the default
 * `min_periods` (equal to the window).
 */
module Indicators {
  import opened Wrappers

  /** Sum of a sequence of reals, built up from the last element. */
  function Sum(s: seq<real>): real
  {
    if |s| == 0 then 0.0 else Sum(s[..|s| - 1]) + s[|s| - 1]
  }

  /** Arithmetic mean of a non-empty sequence. */
  function Mean(s: seq<real>): real
    requires |s| > 0
  {
    Sum(s) / |s| as real
  }

  /** True when row `i` has a full window of `window` closes behind it. */
  predicate HasWindow(window: nat, i: nat)
  {
    1 <= window <= i + 1
  }

  /**
   * Rolling mean of `closes` over `window` rows. Row `i` is undefined until a
   * full window is available; a window of 0 leaves every row undefined.
   */
  function Sma(closes: seq<real>, window: nat): (r: seq<Option<real>>)
    ensures |r| == |closes|
    ensures forall i :: 0 <= i < |r| ==> (r[i].Some? <==> HasWindow(window, i))
  {
    seq(|closes|, i requires 0 <= i < |closes| =>
      if HasWindow(window, i) then Some(Mean(closes[i + 1 - window .. i + 1])) else None)
  }

  /** Peeling the first element off a sum. */
  lemma {:induction false} SumFront(s: seq<real>)
    requires |s| > 0
    ensures Sum(s) == s[0] + Sum(s[1..])
    decreases |s|
  {
    if |s| > 1 {
      SumFront(s[..|s| - 1]);
      assert s[..|s| - 1][1..] == s[1..][..|s[1..]| - 1];
    }
  }

  /** A sum of values in [lo, hi] lies between |s| * lo and |s| * hi. */
  lemma {:induction false} SumBounds(s: seq<real>, lo: real, hi: real)
    requires forall k :: 0 <= k < |s| ==> lo <= s[k] <= hi
    ensures |s| as real * lo <= Sum(s) <= |s| as real * hi
    decreases |s|
  {
    if |s| > 0 {
      var init := s[..|s| - 1];
      assert forall k :: 0 <= k < |init| ==> init[k] == s[k];
      SumBounds(init, lo, hi);
    }
  }

  /** A sum of strictly positive values over a non-empty sequence is positive. */
  lemma {:induction false} SumPositive(s: seq<real>)
    requires |s| > 0
    requires forall k :: 0 <= k < |s| ==> s[k] > 0.0
    ensures Sum(s) > 0.0
    decreases |s|
  {
    if |s| > 1 {
      var init := s[..|s| - 1];
      assert forall k :: 0 <= k < |init| ==> init[k] == s[k];
      SumPositive(init);
    }
  }

  /**
   * A defined moving average lies between the smallest and largest close of
   * its window.
   */
  lemma SmaWithinWindowRange(closes: seq<real>, window: nat, i: nat, lo: real, hi: real)
    requires i < |closes| && HasWindow(window, i)
    requires forall j :: i + 1 - window <= j <= i ==> lo <= closes[j] <= hi
    ensures lo <= Sma(closes, window)[i].value <= hi
  {
    var s := closes[i + 1 - window .. i + 1];
    assert forall k :: 0 <= k < |s| ==> s[k] == closes[i + 1 - window + k];
    SumBounds(s, lo, hi);
    var w := window as real;
    assert Sma(closes, window)[i].value == Sum(s) / w;
    assert Sum(s) / w * w == Sum(s);
  }

  /** Moving averages of positive prices are positive. */
  lemma SmaPositive(closes: seq<real>, window: nat, i: nat)
    requires forall j :: 0 <= j < |closes| ==> closes[j] > 0.0
    requires i < |closes| && HasWindow(window, i)
    ensures Sma(closes, window)[i].value > 0.0
  {
    var s := closes[i + 1 - window .. i + 1];
    assert forall k :: 0 <= k < |s| ==> s[k] == closes[i + 1 - window + k];
    SumPositive(s);
  }

  /**
   * Sliding-window recurrence: each new average adds the entering close and
   * drops the leaving one, scaled by the window.
   */
  lemma SmaSlide(closes: seq<real>, window: nat, i: nat)
    requires 1 <= window <= i < |closes|
    ensures Sma(closes, window)[i].value
         == Sma(closes, window)[i - 1].value + (closes[i] - closes[i - window]) / window as real
  {
    var cur := closes[i + 1 - window .. i + 1];
    var prev := closes[i - window .. i];
    assert cur[..|cur| - 1] == prev[1..];
    SumFront(prev);
    assert Sum(cur) == Sum(prev) - closes[i - window] + closes[i];
    var w := window as real;
    assert Sum(cur) / w == Sum(prev) / w + (closes[i] - closes[i - window]) / w;
  }

  /** A window of one reproduces the closes themselves. */
  lemma SmaUnitWindow(closes: seq<real>, i: nat)
    requires i < |closes|
    ensures Sma(closes, 1)[i] == Some(closes[i])
  {
    var s := closes[i .. i + 1];
    assert s[..0] == [];
    assert Sum(s) == closes[i];
  }

  /** The average at row i uses no close after row i: it is unchanged by truncating the series. */
  lemma SmaCausal(closes: seq<real>, window: nat, n: nat)
    requires n <= |closes|
    ensures Sma(closes[..n], window) == Sma(closes, window)[..n]
  {
    var prefix := closes[..n];
    var a := Sma(prefix, window);
    var b := Sma(closes, window)[..n];
    assert |a| == |b| == n;
    forall i | 0 <= i < n ensures a[i] == b[i] {
      if HasWindow(window, i) {
        assert prefix[i + 1 - window .. i + 1] == closes[i + 1 - window .. i + 1];
      }
    }
  }
}
