/**
 * The trade-reconstruction stage: the rows where the signal changes, trimmed
 * of a leading flat row and a trailing open entry, split into entries and
 * exits and paired by position into round-trip trades.
 *
 * A row's date is its position in the price series; the series' dates are
 * strictly increasing, so positions order rows exactly as dates do.
 */
module Trades {
  import opened Wrappers
  import opened Signals
  import opened Returns

  /** A selected row of the frame: its date, the signal it switches to and its close. */
  datatype Row = Row(date: nat, signal: Bit, close: real)

  /** A round trip: bought at the entry row's close, sold at the exit row's close. */
  datatype Trade = Trade(entryDate: nat, entryPrice: real, exitDate: nat, exitPrice: real, profit: real)

  /**
   * The two places where the source indexes an empty trade list: `iloc[0]` on
   * an empty series, and `iloc[-1]` once the only change row was dropped.
   */
  datatype Error = NoChangeRows | NoRowsAfterLeadingTrim

  /** Row i differs from the shifted signal; row 0 always does, the shift being undefined there. */
  predicate IsChange(signal: seq<Bit>, i: nat)
    requires i < |signal|
  {
    i == 0 || signal[i] != signal[i - 1]
  }

  /** The change rows among the first n rows, in row order. */
  function ChangePointsUpTo(signal: seq<Bit>, closes: seq<real>, n: nat): seq<Row>
    requires |signal| == |closes| && n <= |signal|
  {
    if n == 0 then []
    else
      var last := if IsChange(signal, n - 1) then [Row(n - 1, signal[n - 1], closes[n - 1])] else [];
      ChangePointsUpTo(signal, closes, n - 1) + last
  }

  /**
   * `df[df['signal'] != df['signal'].shift(1)][['signal', 'Close']]`. The shift
   * leaves NaN at row 0, which equals nothing, so a non-empty series always
   * starts with row 0.
   */
  function ChangePoints(signal: seq<Bit>, closes: seq<real>): (rows: seq<Row>)
    requires |signal| == |closes|
    ensures |rows| > 0 <==> |signal| > 0
    ensures |rows| > 0 ==> rows[0] == Row(0, signal[0], closes[0])
  {
    ChangePointsUpToRows(signal, closes, |signal|);
    ChangePointsUpTo(signal, closes, |signal|)
  }

  /** Every row is a change row below n, and carries that row's signal and close. */
  ghost predicate RowsOf(signal: seq<Bit>, closes: seq<real>, n: nat, rows: seq<Row>)
    requires |signal| == |closes| && n <= |signal|
  {
    forall k :: 0 <= k < |rows| ==>
      rows[k].date < n && rows[k].signal == signal[rows[k].date]
      && rows[k].close == closes[rows[k].date] && IsChange(signal, rows[k].date)
  }

  /** Rows in strictly increasing date order. */
  predicate Increasing(rows: seq<Row>)
  {
    forall j, k :: 0 <= j < k < |rows| ==> rows[j].date < rows[k].date
  }

  /** In an increasing list of dates the k-th date is at least k. */
  lemma {:induction false} DateAtLeastPosition(rows: seq<Row>, k: nat)
    requires Increasing(rows) && k < |rows|
    ensures rows[k].date >= k
    decreases k
  {
    if k > 0 {
      DateAtLeastPosition(rows, k - 1);
      assert rows[k - 1].date < rows[k].date;
    }
  }

  /** Consecutive rows carry different signals. */
  predicate Alternating(rows: seq<Row>)
  {
    forall k :: 0 < k < |rows| ==> rows[k - 1].signal != rows[k].signal
  }

  /** Every change row below n is one of the rows. */
  ghost predicate Complete(signal: seq<Bit>, n: nat, rows: seq<Row>)
    requires n <= |signal|
  {
    forall i :: 0 <= i < n && IsChange(signal, i) ==> exists k :: 0 <= k < |rows| && rows[k].date == i
  }

  lemma {:induction false} ChangePointsUpToRows(signal: seq<Bit>, closes: seq<real>, n: nat)
    requires |signal| == |closes| && n <= |signal|
    ensures var rows := ChangePointsUpTo(signal, closes, n);
      RowsOf(signal, closes, n, rows) && Increasing(rows) && (n > 0 ==> |rows| > 0 && rows[0].date == 0)
    decreases n
  {
    if n > 0 {
      ChangePointsUpToRows(signal, closes, n - 1);
      var before := ChangePointsUpTo(signal, closes, n - 1);
      var rows := ChangePointsUpTo(signal, closes, n);
      assert forall k :: 0 <= k < |before| ==> rows[k] == before[k];
      if n == 1 {
        assert rows[0].date == 0;
      }
    }
  }

  lemma {:induction false} ChangePointsUpToComplete(signal: seq<Bit>, closes: seq<real>, n: nat)
    requires |signal| == |closes| && n <= |signal|
    ensures Complete(signal, n, ChangePointsUpTo(signal, closes, n))
    decreases n
  {
    if n > 0 {
      ChangePointsUpToComplete(signal, closes, n - 1);
      var before := ChangePointsUpTo(signal, closes, n - 1);
      var rows := ChangePointsUpTo(signal, closes, n);
      forall i | 0 <= i < n && IsChange(signal, i)
        ensures exists k :: 0 <= k < |rows| && rows[k].date == i
      {
        if i < n - 1 {
          var k :| 0 <= k < |before| && before[k].date == i;
          assert rows[k] == before[k];
        } else {
          assert rows[|before|].date == i;
        }
      }
    }
  }

  /**
   * The change-point list: it holds exactly row 0 and the rows whose signal
   * differs from the previous row, in strictly increasing order, each with its
   * own signal and close.
   */
  lemma ChangePointsFacts(signal: seq<Bit>, closes: seq<real>)
    requires |signal| == |closes|
    ensures var rows := ChangePoints(signal, closes);
      RowsOf(signal, closes, |signal|, rows) && Increasing(rows) && Complete(signal, |signal|, rows)
      && (|signal| > 0 <==> |rows| > 0)
      && (|rows| > 0 ==> rows[0].date == 0)
  {
    ChangePointsUpToRows(signal, closes, |signal|);
    ChangePointsUpToComplete(signal, closes, |signal|);
  }

  /** The date where the k-th change row's run ends: the next change row, or the end of the series. */
  function RunEnd(signal: seq<Bit>, closes: seq<real>, k: nat): nat
    requires |signal| == |closes|
  {
    var rows := ChangePoints(signal, closes);
    if k + 1 < |rows| then rows[k + 1].date else |signal|
  }

  /** Between one change row and the next, the signal keeps the change row's value. */
  lemma {:induction false} HoldsUntilNextChange(signal: seq<Bit>, closes: seq<real>, k: nat, j: nat)
    requires |signal| == |closes|
    requires k < |ChangePoints(signal, closes)|
    requires ChangePoints(signal, closes)[k].date <= j < RunEnd(signal, closes, k)
    ensures j < |signal| && signal[j] == ChangePoints(signal, closes)[k].signal
    decreases j
  {
    var rows := ChangePoints(signal, closes);
    ChangePointsFacts(signal, closes);
    if k + 1 < |rows| {
      assert rows[k + 1].date < |signal|;
    }
    if j > rows[k].date {
      HoldsUntilNextChange(signal, closes, k, j - 1);
      forall m | 0 <= m < |rows| ensures rows[m].date != j {
        if m < k {
          assert rows[m].date < rows[k].date;
        } else if m > k + 1 {
          assert rows[k + 1].date < rows[m].date;
        }
      }
      assert !IsChange(signal, j);
    }
  }

  /** Consecutive change rows alternate between long and flat. */
  lemma ChangePointsAlternate(signal: seq<Bit>, closes: seq<real>)
    requires |signal| == |closes|
    ensures Alternating(ChangePoints(signal, closes))
  {
    var rows := ChangePoints(signal, closes);
    ChangePointsFacts(signal, closes);
    forall k | 0 < k < |rows| ensures rows[k - 1].signal != rows[k].signal {
      assert rows[k - 1].date < rows[k].date;
      HoldsUntilNextChange(signal, closes, k - 1, rows[k].date - 1);
    }
  }

  /** Where the trimmed list starts: past the leading row when that row is flat. */
  function Lead(rows: seq<Row>): nat
    requires |rows| > 0
  {
    if rows[0].signal == 0 then 1 else 0
  }

  /** Where the trimmed list ends: before the last row when that row opens a position. */
  function Tail(rows: seq<Row>): nat
    requires |rows| > 0
  {
    if rows[|rows| - 1].signal == 1 then |rows| - 1 else |rows|
  }

  /**
   * Drop a leading flat row, then a trailing open entry. Either look-up fails
   * on an empty list: the first when there are no rows at all, the second
   * when the leading row was the only one.
   */
  function Trim(rows: seq<Row>): (r: Result<seq<Row>, Error>)
    ensures r.Failure? <==> |rows| == 0 || (|rows| == 1 && rows[0].signal == 0)
    ensures r.Success? ==> Lead(rows) <= Tail(rows) && r.value == rows[Lead(rows)..Tail(rows)]
  {
    if |rows| == 0 then Failure(NoChangeRows)
    else
      var afterLead := if rows[0].signal == 0 then rows[1..] else rows;
      if |afterLead| == 0 then Failure(NoRowsAfterLeadingTrim)
      else if afterLead[|afterLead| - 1].signal == 1 then Success(afterLead[..|afterLead| - 1])
      else Success(afterLead)
  }

  /** Trimming an alternating list leaves one that is empty or runs from an entry to an exit. */
  lemma TrimShape(rows: seq<Row>)
    requires Alternating(rows) && Trim(rows).Success?
    ensures var t := Trim(rows).value;
      Alternating(t) && (t != [] ==> t[0].signal == 1 && t[|t| - 1].signal == 0)
  {
    var t := Trim(rows).value;
    var lead := Lead(rows);
    forall k | 0 < k < |t| ensures t[k - 1].signal != t[k].signal {
      assert t[k - 1] == rows[lead + k - 1] && t[k] == rows[lead + k];
    }
    if t != [] {
      assert t[0] == rows[lead] && t[|t| - 1] == rows[lead + |t| - 1];
      if lead == 1 {
        assert rows[0].signal != rows[1].signal;
      }
      if Tail(rows) < |rows| {
        assert rows[|rows| - 2].signal != rows[|rows| - 1].signal;
      }
    }
  }

  /** `rows[rows['signal'] == b]`, keeping row order. */
  function Select(rows: seq<Row>, b: Bit): (r: seq<Row>)
    ensures |r| <= |rows|
    ensures forall k :: 0 <= k < |r| ==> r[k].signal == b
  {
    if rows == [] then []
    else (if rows[0].signal == b then [rows[0]] else []) + Select(rows[1..], b)
  }

  /** The entries and the exits partition the list: every row selected has the requested signal, and together they are all the rows. */
  lemma {:induction false} SelectPartition(rows: seq<Row>, b: Bit)
    ensures forall k :: 0 <= k < |Select(rows, b)| ==> Select(rows, b)[k].signal == b
    ensures |Select(rows, 0)| + |Select(rows, 1)| == |rows|
    decreases |rows|
  {
    if rows != [] {
      SelectPartition(rows[1..], b);
    }
  }

  lemma {:induction false} SelectAppend(a: seq<Row>, c: seq<Row>, b: Bit)
    ensures Select(a + c, b) == Select(a, b) + Select(c, b)
    decreases |a|
  {
    if a == [] {
      assert a + c == c;
    } else {
      var head := if a[0].signal == b then [a[0]] else [];
      assert (a + c)[0] == a[0];
      assert (a + c)[1..] == a[1..] + c;
      SelectAppend(a[1..], c, b);
      assert Select(a + c, b) == head + (Select(a[1..], b) + Select(c, b));
      assert Select(a, b) == head + Select(a[1..], b);
    }
  }

  /** Selecting from a list that opens with an entry and then an exit. */
  lemma SelectEntryExit(rows: seq<Row>)
    requires |rows| >= 2 && rows[0].signal == 1 && rows[1].signal == 0
    ensures Select(rows, 1) == [rows[0]] + Select(rows[2..], 1)
    ensures Select(rows, 0) == [rows[1]] + Select(rows[2..], 0)
  {
    assert rows[1..][0] == rows[1];
    assert rows[1..][1..] == rows[2..];
  }

  /** Dropping two rows keeps an alternating list alternating. */
  lemma AlternatingDropTwo(rows: seq<Row>)
    requires Alternating(rows) && |rows| >= 2
    ensures Alternating(rows[2..])
  {
    var rest := rows[2..];
    forall k | 0 < k < |rest| ensures rest[k - 1].signal != rest[k].signal {
      assert rest[k - 1] == rows[k + 1];
      assert rest[k] == rows[k + 2];
    }
  }

  /** An alternating entry-to-exit list opens with an entry and an exit, and what follows is again such a list. */
  lemma EntryExitThenRest(rows: seq<Row>)
    requires Alternating(rows) && rows != []
    requires rows[0].signal == 1 && rows[|rows| - 1].signal == 0
    ensures |rows| >= 2 && rows[1].signal == 0
    ensures var rest := rows[2..];
      Alternating(rest) && (rest != [] ==> rest[0].signal == 1 && rest[|rest| - 1].signal == 0)
  {
    assert rows[0].signal != rows[|rows| - 1].signal;
    assert rows[1].signal != rows[0].signal;
    AlternatingDropTwo(rows);
    if |rows| > 2 {
      assert rows[2].signal != rows[1].signal;
    }
  }

  /** An alternating list from an entry to an exit has even length and holds as many entries as exits. */
  lemma {:induction false} SplitLengths(rows: seq<Row>)
    requires Alternating(rows)
    requires rows != [] ==> rows[0].signal == 1 && rows[|rows| - 1].signal == 0
    ensures |rows| % 2 == 0
    ensures |Select(rows, 1)| == |rows| / 2 && |Select(rows, 0)| == |rows| / 2
    decreases |rows|
  {
    if rows != [] {
      EntryExitThenRest(rows);
      SplitLengths(rows[2..]);
      SelectEntryExit(rows);
    }
  }

  /** In such a list the k-th entry is row 2k and the k-th exit row 2k + 1. */
  lemma {:induction false} SplitPosition(rows: seq<Row>, k: nat)
    requires Alternating(rows)
    requires rows != [] ==> rows[0].signal == 1 && rows[|rows| - 1].signal == 0
    requires k < |rows| / 2
    ensures |Select(rows, 1)| == |rows| / 2 && |Select(rows, 0)| == |rows| / 2
    ensures Select(rows, 1)[k] == rows[2 * k] && Select(rows, 0)[k] == rows[2 * k + 1]
    decreases k
  {
    SplitLengths(rows);
    EntryExitThenRest(rows);
    SelectEntryExit(rows);
    if k > 0 {
      var rest := rows[2..];
      SplitPosition(rest, k - 1);
      assert Select(rows, 1)[k] == Select(rest, 1)[k - 1] == rest[2 * k - 2];
      assert Select(rows, 0)[k] == Select(rest, 0)[k - 1] == rest[2 * k - 1];
    }
  }

  /** `ExitPrice / EntryPrice - 1 - commission`. */
  function Profit(entryPrice: real, exitPrice: real, commission: real): (p: real)
    requires entryPrice > 0.0
    ensures exitPrice == entryPrice * (1.0 + commission + p)
    ensures p > 0.0 <==> exitPrice > entryPrice * (1.0 + commission)
  {
    exitPrice / entryPrice - 1.0 - commission
  }

  /** The k-th entry beside the k-th exit, as `pd.concat(axis=1)` lines them up. */
  function Pair(buys: seq<Row>, sells: seq<Row>, commission: real): (trades: seq<Trade>)
    requires |buys| == |sells|
    requires forall k :: 0 <= k < |buys| ==> buys[k].close > 0.0
    ensures |trades| == |buys|
  {
    seq(|buys|, k requires 0 <= k < |buys| =>
      Trade(buys[k].date, buys[k].close, sells[k].date, sells[k].close,
            Profit(buys[k].close, sells[k].close, commission)))
  }

  /** The number of rows i >= 1, i < n, where a long signal turns flat. */
  function FallingEdgesUpTo(signal: seq<Bit>, n: nat): nat
    requires n <= |signal|
  {
    if n <= 1 then 0
    else FallingEdgesUpTo(signal, n - 1) + (if signal[n - 2] == 1 && signal[n - 1] == 0 then 1 else 0)
  }

  /** The number of 1 -> 0 transitions of the signal. */
  function FallingEdges(signal: seq<Bit>): nat
  {
    FallingEdgesUpTo(signal, |signal|)
  }

  /**
   * After trimming, the k-th entry is change row Lead + 2k and the k-th exit
   * is change row Lead + 2k + 1, and there are as many entries as exits.
   */
  lemma SplitTrimmed(signal: seq<Bit>, closes: seq<real>)
    requires |signal| == |closes|
    requires Trim(ChangePoints(signal, closes)).Success?
    ensures var rows := ChangePoints(signal, closes);
      var t := Trim(rows).value;
      var lead := Lead(rows);
      && lead + |t| <= |rows| && |t| % 2 == 0
      && |Select(t, 1)| == |t| / 2 && |Select(t, 0)| == |t| / 2
      && forall k :: 0 <= k < |t| / 2 ==>
           && Select(t, 1)[k] == rows[lead + 2 * k] && rows[lead + 2 * k].signal == 1
           && Select(t, 0)[k] == rows[lead + 2 * k + 1] && rows[lead + 2 * k + 1].signal == 0
  {
    var rows := ChangePoints(signal, closes);
    ChangePointsAlternate(signal, closes);
    TrimShape(rows);
    var t := Trim(rows).value;
    var lead := Lead(rows);
    SplitLengths(t);
    SelectPartition(t, 1);
    SelectPartition(t, 0);
    forall k | 0 <= k < |t| / 2
      ensures Select(t, 1)[k] == rows[lead + 2 * k] && Select(t, 0)[k] == rows[lead + 2 * k + 1]
    {
      SplitPosition(t, k);
      assert t[2 * k] == rows[lead + 2 * k];
      assert t[2 * k + 1] == rows[lead + 2 * k + 1];
    }
  }

  /** The trimmed change-point list, when trimming succeeds, splits evenly and its entries have positive closes. */
  lemma TrimmedChangePointsSplit(signal: seq<Bit>, closes: seq<real>)
    requires |signal| == |closes| && PositivePrices(closes)
    requires Trim(ChangePoints(signal, closes)).Success?
    ensures var t := Trim(ChangePoints(signal, closes)).value;
      |Select(t, 1)| == |Select(t, 0)| && forall k :: 0 <= k < |Select(t, 1)| ==> Select(t, 1)[k].close > 0.0
  {
    var rows := ChangePoints(signal, closes);
    ChangePointsFacts(signal, closes);
    SplitTrimmed(signal, closes);
    var t := Trim(rows).value;
    var lead := Lead(rows);
    forall k | 0 <= k < |Select(t, 1)| ensures Select(t, 1)[k].close > 0.0 {
      assert Select(t, 1)[k] == rows[lead + 2 * k];
    }
  }

  /**
   * The whole of lines 40-54: change points, the two trims, the split into
   * entries and exits, and the pairing into trades with their profit.
   */
  function ExtractTrades(signal: seq<Bit>, closes: seq<real>, commission: real): (r: Result<seq<Trade>, Error>)
    requires |signal| == |closes| && PositivePrices(closes)
    ensures r.Failure? ==> r.error == (if |signal| == 0 then NoChangeRows else NoRowsAfterLeadingTrim)
  {
    match Trim(ChangePoints(signal, closes))
    case Failure(e) => Failure(e)
    case Success(t) =>
      TrimmedChangePointsSplit(signal, closes);
      Success(Pair(Select(t, 1), Select(t, 0), commission))
  }

  /** Each long run that is closed by a flat row, as a trade: opened where the signal turns long, closed where it turns flat. */
  ghost predicate TradeOfRun(signal: seq<Bit>, closes: seq<real>, commission: real, trade: Trade)
    requires |signal| == |closes| && PositivePrices(closes)
  {
    && trade.entryDate < trade.exitDate < |signal|
    && trade.entryPrice == closes[trade.entryDate]
    && trade.exitPrice == closes[trade.exitDate]
    && trade.profit == Profit(trade.entryPrice, trade.exitPrice, commission)
    && (trade.entryDate == 0 || signal[trade.entryDate - 1] == 0)
    && (forall j :: trade.entryDate <= j < trade.exitDate ==> signal[j] == 1)
    && signal[trade.exitDate] == 0
  }

  /** Trade k is built from change rows Lead + 2k (an entry) and Lead + 2k + 1 (its exit). */
  lemma TradeFromChangeRows(signal: seq<Bit>, closes: seq<real>, commission: real, k: nat)
    requires |signal| == |closes| && PositivePrices(closes)
    requires ExtractTrades(signal, closes, commission).Success?
    requires k < |ExtractTrades(signal, closes, commission).value|
    ensures var rows := ChangePoints(signal, closes);
      var m := Lead(rows) + 2 * k;
      m + 1 < |rows| && rows[m].signal == 1 && rows[m + 1].signal == 0 && rows[m].close > 0.0
      && ExtractTrades(signal, closes, commission).value[k]
         == Trade(rows[m].date, rows[m].close, rows[m + 1].date, rows[m + 1].close,
                  Profit(rows[m].close, rows[m + 1].close, commission))
  {
    var rows := ChangePoints(signal, closes);
    ChangePointsFacts(signal, closes);
    SplitTrimmed(signal, closes);
    TrimmedChangePointsSplit(signal, closes);
    var t := Trim(rows).value;
    var m := Lead(rows) + 2 * k;
    var trades := Pair(Select(t, 1), Select(t, 0), commission);
    assert ExtractTrades(signal, closes, commission).value == trades;
    assert Select(t, 1)[k] == rows[m] && Select(t, 0)[k] == rows[m + 1];
    assert trades[k] == Trade(rows[m].date, rows[m].close, rows[m + 1].date, rows[m + 1].close,
                              Profit(rows[m].close, rows[m + 1].close, commission));
  }

  /** Trade extraction fails exactly when the signal never goes long (including an empty series). */
  lemma ExtractTradesFailsIffNeverLong(signal: seq<Bit>, closes: seq<real>, commission: real)
    requires |signal| == |closes| && PositivePrices(closes)
    ensures ExtractTrades(signal, closes, commission).Failure?
        <==> forall i :: 0 <= i < |signal| ==> signal[i] == 0
  {
    var rows := ChangePoints(signal, closes);
    ChangePointsFacts(signal, closes);
    if |rows| == 1 && rows[0].signal == 0 {
      forall j | 0 <= j < |signal| ensures signal[j] == 0 {
        HoldsUntilNextChange(signal, closes, 0, j);
      }
    }
    if |signal| > 0 && forall i :: 0 <= i < |signal| ==> signal[i] == 0 {
      forall k | 0 <= k < |rows| ensures rows[k].date == 0 {
        assert IsChange(signal, rows[k].date);
      }
      var last := |rows| - 1;
      DateAtLeastPosition(rows, last);
      assert rows[last].date == 0;
      assert |rows| == 1;
    }
  }

  /** The flat rows among the first n change rows: one per falling edge, plus row 0 when it is flat. */
  lemma {:induction false} FlatChangeRowsUpTo(signal: seq<Bit>, closes: seq<real>, n: nat)
    requires |signal| == |closes| && n <= |signal|
    ensures |Select(ChangePointsUpTo(signal, closes, n), 0)|
         == FallingEdgesUpTo(signal, n) + (if n > 0 && signal[0] == 0 then 1 else 0)
    decreases n
  {
    if n > 0 {
      FlatChangeRowsUpTo(signal, closes, n - 1);
      var last := if IsChange(signal, n - 1) then [Row(n - 1, signal[n - 1], closes[n - 1])] else [];
      SelectAppend(ChangePointsUpTo(signal, closes, n - 1), last, 0);
      if last != [] {
        assert last[1..] == [];
      }
    }
  }

  /** Trimming removes one flat row exactly when the leading row is flat; the trailing row it may drop is long. */
  lemma TrimFlatCount(rows: seq<Row>)
    requires Trim(rows).Success?
    ensures |Select(Trim(rows).value, 0)| + Lead(rows) == |Select(rows, 0)|
  {
    var lead, tail := Lead(rows), Tail(rows);
    var t := Trim(rows).value;
    assert rows == rows[..lead] + t + rows[tail..];
    SelectAppend(rows[..lead] + t, rows[tail..], 0);
    SelectAppend(rows[..lead], t, 0);
    if lead == 1 {
      assert rows[..lead] == [rows[0]];
      assert rows[..lead][1..] == [];
    } else {
      assert rows[..lead] == [];
    }
    if tail < |rows| {
      assert rows[tail..] == [rows[tail]];
      assert rows[tail..][1..] == [];
    } else {
      assert rows[tail..] == [];
    }
  }

  /** The number of trades is the number of times the signal turns from long to flat. */
  lemma ExtractTradesCount(signal: seq<Bit>, closes: seq<real>, commission: real)
    requires |signal| == |closes| && PositivePrices(closes)
    requires ExtractTrades(signal, closes, commission).Success?
    ensures |ExtractTrades(signal, closes, commission).value| == FallingEdges(signal)
  {
    var rows := ChangePoints(signal, closes);
    ChangePointsFacts(signal, closes);
    TrimmedChangePointsSplit(signal, closes);
    FlatChangeRowsUpTo(signal, closes, |signal|);
    TrimFlatCount(rows);
    assert rows[0].signal == signal[0];
  }

  /** Trade k opens where the signal turns long, stays long until its exit and closes where the signal turns flat. */
  lemma TradeRunAt(signal: seq<Bit>, closes: seq<real>, commission: real, k: nat)
    requires |signal| == |closes| && PositivePrices(closes)
    requires ExtractTrades(signal, closes, commission).Success?
    requires k < |ExtractTrades(signal, closes, commission).value|
    ensures TradeOfRun(signal, closes, commission, ExtractTrades(signal, closes, commission).value[k])
  {
    var rows := ChangePoints(signal, closes);
    ChangePointsFacts(signal, closes);
    TradeFromChangeRows(signal, closes, commission, k);
    var m := Lead(rows) + 2 * k;
    var entry, exit := rows[m], rows[m + 1];
    assert entry.date < exit.date;
    assert entry.signal == signal[entry.date] && entry.close == closes[entry.date] && IsChange(signal, entry.date);
    assert exit.signal == signal[exit.date] && exit.close == closes[exit.date];
    forall j | entry.date <= j < exit.date ensures signal[j] == 1 {
      HoldsUntilNextChange(signal, closes, m, j);
    }
  }

  /**
   * Every trade opens where the signal turns long, stays long until its exit
   * and closes where the signal turns flat, priced at those rows' closes.
   */
  lemma ExtractTradesRuns(signal: seq<Bit>, closes: seq<real>, commission: real)
    requires |signal| == |closes| && PositivePrices(closes)
    requires ExtractTrades(signal, closes, commission).Success?
    ensures var trades := ExtractTrades(signal, closes, commission).value;
      forall k :: 0 <= k < |trades| ==> TradeOfRun(signal, closes, commission, trades[k])
  {
    var trades := ExtractTrades(signal, closes, commission).value;
    forall k | 0 <= k < |trades| ensures TradeOfRun(signal, closes, commission, trades[k]) {
      TradeRunAt(signal, closes, commission, k);
    }
  }

  /** Trades are oldest first and do not overlap: each exit comes before the next entry. */
  lemma ExtractTradesOrdered(signal: seq<Bit>, closes: seq<real>, commission: real)
    requires |signal| == |closes| && PositivePrices(closes)
    requires ExtractTrades(signal, closes, commission).Success?
    ensures var trades := ExtractTrades(signal, closes, commission).value;
      forall k :: 0 < k < |trades| ==> trades[k - 1].exitDate < trades[k].entryDate
  {
    var trades := ExtractTrades(signal, closes, commission).value;
    var rows := ChangePoints(signal, closes);
    ChangePointsFacts(signal, closes);
    forall k | 0 < k < |trades| ensures trades[k - 1].exitDate < trades[k].entryDate {
      TradeFromChangeRows(signal, closes, commission, k - 1);
      TradeFromChangeRows(signal, closes, commission, k);
      var m := Lead(rows) + 2 * k;
      assert rows[m - 1].date < rows[m].date;
    }
  }

  /**
   * What the trade list means: one trade per fall of the signal, each a long
   * run closed by a flat row, oldest first.
   */
  ghost predicate TradesOfSignal(signal: seq<Bit>, closes: seq<real>, commission: real, trades: seq<Trade>)
    requires |signal| == |closes| && PositivePrices(closes)
  {
    && |trades| == FallingEdges(signal)
    && (forall k :: 0 <= k < |trades| ==> TradeOfRun(signal, closes, commission, trades[k]))
    && (forall k :: 0 < k < |trades| ==> trades[k - 1].exitDate < trades[k].entryDate)
  }

  /** Trade extraction, when it succeeds, returns exactly the trades of the signal's closed long runs. */
  lemma ExtractTradesCorrect(signal: seq<Bit>, closes: seq<real>, commission: real)
    requires |signal| == |closes| && PositivePrices(closes)
    ensures ExtractTrades(signal, closes, commission).Failure?
        <==> forall i :: 0 <= i < |signal| ==> signal[i] == 0
    ensures ExtractTrades(signal, closes, commission).Success? ==>
      TradesOfSignal(signal, closes, commission, ExtractTrades(signal, closes, commission).value)
  {
    ExtractTradesFailsIffNeverLong(signal, closes, commission);
    if ExtractTrades(signal, closes, commission).Success? {
      ExtractTradesCount(signal, closes, commission);
      ExtractTradesRuns(signal, closes, commission);
      ExtractTradesOrdered(signal, closes, commission);
    }
  }
}
