/** Batch routing: deduplicate the batch's quotes by ticker, inner-join them to the
    accounts, mark rows that cannot trade, and split the rows into the activity log
    and the rows handed to the evaluator. */
module Routing {
  import opened Seqs
  import opened Tables
  import Evaluator

  ghost predicate UniqueTickers(qs: seq<Quote>) {
    InjectiveOn(qs, QuoteTicker)
  }

  /** `q` is the first quote of its ticker in `qs`. */
  ghost predicate FirstOfTicker(qs: seq<Quote>, q: Quote) {
    exists j :: 0 <= j < |qs| && qs[j] == q && forall k :: 0 <= k < j ==> qs[k].ticker != q.ticker
  }

  /** Drop duplicate tickers, keeping each ticker's first quote. */
  function Dedup(qs: seq<Quote>): (d: seq<Quote>)
    ensures UniqueTickers(d)
    ensures Tickers(d) == Tickers(qs)
    ensures forall i :: 0 <= i < |d| ==> d[i] in qs
    decreases |qs|
  {
    if |qs| == 0 then []
    else
      var init := qs[..|qs| - 1];
      var last := qs[|qs| - 1];
      var d := Dedup(init);
      assert qs == init + [last];
      TickersSnoc(init, last);
      if last.ticker in Tickers(d) then d
      else
        TickersSnoc(d, last);
        AppendNewTicker(d, last);
        d + [last]
  }

  lemma {:induction false} AppendNewTicker(d: seq<Quote>, q: Quote)
    requires UniqueTickers(d) && q.ticker !in Tickers(d)
    ensures UniqueTickers(d + [q])
  {
    forall i, j | 0 <= i < |d| && 0 <= j < |[q]| ensures QuoteTicker(d[i]) != QuoteTicker([q][j]) {
      assert d[i] in d;
    }
    InjectiveOnConcat(d, [q], QuoteTicker);
  }

  /** The quote kept for each ticker is the first one of that ticker in the batch. */
  lemma {:induction false} DedupKeepsFirst(qs: seq<Quote>)
    ensures forall i :: 0 <= i < |Dedup(qs)| ==> FirstOfTicker(qs, Dedup(qs)[i])
    decreases |qs|
  {
    if |qs| > 0 {
      var init := qs[..|qs| - 1];
      var last := qs[|qs| - 1];
      var d := Dedup(init);
      DedupKeepsFirst(init);
      assert qs == init + [last];
      forall i | 0 <= i < |d| ensures FirstOfTicker(qs, d[i]) {
        var j :| 0 <= j < |init| && init[j] == d[i] && forall k :: 0 <= k < j ==> init[k].ticker != d[i].ticker;
        assert qs[j] == d[i];
      }
      if last.ticker !in Tickers(d) {
        forall k | 0 <= k < |qs| - 1 ensures qs[k].ticker != last.ticker {
          assert qs[k] in init;
        }
        assert FirstOfTicker(qs, last);
        assert Dedup(qs) == d + [last];
      }
    }
  }

  /** The rows one account contributes to the inner join. */
  function JoinAccount(a: Account, qs: seq<Quote>): (rows: seq<Row>)
    ensures forall i :: 0 <= i < |rows| ==> rows[i].acct == a && QuoteOf(rows[i]) in qs
    ensures forall q :: q in qs && q.ticker == a.ticker ==> JoinRow(a, q) in rows
    decreases |qs|
  {
    if |qs| == 0 then []
    else
      (if qs[0].ticker == a.ticker then [JoinRow(a, qs[0])] else []) + JoinAccount(a, qs[1..])
  }

  /** The inner join of the accounts and the quotes on `ticker`. */
  function Join(accts: seq<Account>, qs: seq<Quote>): (rows: seq<Row>)
    ensures forall i :: 0 <= i < |rows| ==> rows[i].acct in accts && QuoteOf(rows[i]) in qs
    ensures forall a, q :: a in accts && q in qs && q.ticker == a.ticker ==> JoinRow(a, q) in rows
    decreases |accts|
  {
    if |accts| == 0 then []
    else
      var rows := JoinAccount(accts[0], qs) + Join(accts[1..], qs);
      assert forall a :: a in accts ==> a == accts[0] || a in accts[1..];
      rows
  }

  /** An account whose ticker has no quote, and a quote whose ticker has no account,
      contribute no joined row. */
  lemma {:induction false} JoinDropsUnmatched(accts: seq<Account>, qs: seq<Quote>, a: Account, q: Quote)
    requires a.ticker !in Tickers(qs)
    requires forall i :: 0 <= i < |accts| ==> accts[i].ticker != q.ticker
    ensures forall i :: 0 <= i < |Join(accts, qs)| ==> Join(accts, qs)[i].acct != a && QuoteOf(Join(accts, qs)[i]) != q
  {
    var rows := Join(accts, qs);
    forall i | 0 <= i < |rows| ensures rows[i].acct != a && QuoteOf(rows[i]) != q {
      assert QuoteOf(rows[i]) in qs;
      var k :| 0 <= k < |accts| && accts[k] == rows[i].acct;
    }
  }

  /** Against deduplicated quotes an account is joined once if its ticker is quoted
      and not at all otherwise. */
  lemma {:induction false} JoinAccountOnce(a: Account, qs: seq<Quote>)
    requires UniqueTickers(qs)
    ensures |JoinAccount(a, qs)| == if a.ticker in Tickers(qs) then 1 else 0
    decreases |qs|
  {
    if |qs| > 0 {
      var tail := qs[1..];
      assert UniqueTickers(tail) by {
        forall i, j | 0 <= i < j < |tail| ensures tail[i].ticker != tail[j].ticker {
          assert tail[i] == qs[i + 1] && tail[j] == qs[j + 1];
        }
      }
      JoinAccountOnce(a, tail);
      assert Tickers(qs) == {qs[0].ticker} + Tickers(tail) by {
        assert qs == [qs[0]] + tail;
      }
      if qs[0].ticker == a.ticker {
        forall q | q in tail ensures q.ticker != a.ticker {
          var k :| 0 <= k < |tail| && tail[k] == q;
          assert qs[k + 1] == q;
        }
      }
    }
  }

  /** Over accounts with unique keys and deduplicated quotes, joined rows have unique keys. */
  lemma {:induction false} JoinKeepsKeysUnique(accts: seq<Account>, qs: seq<Quote>)
    requires InjectiveOn(accts, KeyOf) && UniqueTickers(qs)
    ensures InjectiveOn(Join(accts, qs), RowKey)
    decreases |accts|
  {
    if |accts| > 0 {
      var rest := accts[1..];
      InjectiveOnTail(accts, KeyOf);
      JoinKeepsKeysUnique(rest, qs);
      JoinAccountOnce(accts[0], qs);
      var head := JoinAccount(accts[0], qs);
      var tail := Join(rest, qs);
      forall i, j | 0 <= i < |head| && 0 <= j < |tail| ensures RowKey(head[i]) != RowKey(tail[j]) {
        var k :| 0 <= k < |rest| && rest[k] == tail[j].acct;
        assert accts[k + 1] == tail[j].acct;
      }
      InjectiveOnConcat(head, tail, RowKey);
    }
  }

  function Abs(x: int): int {
    if x < 0 then -x else x
  }

  /** The price moved less than both thresholds, in either direction. */
  predicate Inactive(r: Row) {
    Abs(r.acct.previousPrice - r.price) < r.acct.buy && Abs(r.acct.previousPrice - r.price) < r.acct.sell
  }

  /** The `volume` rewrite: a row that cannot trade gets volume 0. */
  function MarkInactive(r: Row): (m: Row)
    ensures m.acct == r.acct && m.timeNew == r.timeNew && m.price == r.price
    ensures Inactive(r) ==> m.volume == 0
    ensures !Inactive(r) ==> m == r
    ensures Inactive(m) == Inactive(r)
  {
    if Inactive(r) then r.(volume := 0) else r
  }

  function MarkAll(rows: seq<Row>): seq<Row> {
    seq(|rows|, i requires 0 <= i < |rows| => MarkInactive(rows[i]))
  }

  /** The log filter: volume below 1. */
  predicate Logged(r: Row) {
    r.volume < 1
  }

  /** The evaluation filter: volume other than 0. */
  predicate Evaluated(r: Row) {
    r.volume != 0
  }

  /** The two outputs of routing: rows written to the activity log, and rows evaluated. */
  datatype Routed = Routed(log: seq<Row>, active: seq<Row>)

  function Route(rows: seq<Row>): (rt: Routed)
    ensures |rt.log| <= |rows| && |rt.active| <= |rows|
    ensures forall i :: 0 <= i < |rt.log| ==> rt.log[i].volume < 1
    ensures forall i :: 0 <= i < |rt.active| ==> rt.active[i].volume != 0
  {
    var marked := MarkAll(rows);
    Routed(Filter(marked, Logged), Filter(marked, Evaluated))
  }

  /** The rows evaluated are exactly the joined rows that can trade and carry a
      non-zero volume. */
  lemma {:induction false} RouteActive(rows: seq<Row>)
    ensures forall i :: 0 <= i < |Route(rows).active| ==>
      var r := Route(rows).active[i]; r in rows && !Inactive(r) && r.volume != 0
    ensures forall i :: 0 <= i < |rows| && !Inactive(rows[i]) && rows[i].volume != 0 ==> rows[i] in Route(rows).active
  {
    var marked := MarkAll(rows);
    var active := Route(rows).active;
    forall i | 0 <= i < |active| ensures active[i] in rows && !Inactive(active[i]) && active[i].volume != 0 {
      var k :| 0 <= k < |marked| && marked[k] == active[i];
      assert rows[k] == active[i];
    }
    forall i | 0 <= i < |rows| && !Inactive(rows[i]) && rows[i].volume != 0 ensures rows[i] in active {
      assert marked[i] == rows[i];
    }
  }

  /** The rows logged are the rows that cannot trade, with volume zeroed, and the
      rows whose volume is below 1. */
  lemma {:induction false} RouteLog(rows: seq<Row>)
    ensures forall i :: 0 <= i < |Route(rows).log| ==>
      var r := Route(rows).log[i]; r.volume < 1 && exists k :: 0 <= k < |rows| && r == MarkInactive(rows[k])
    ensures forall i :: 0 <= i < |rows| && Inactive(rows[i]) ==> rows[i].(volume := 0) in Route(rows).log
    ensures forall i :: 0 <= i < |rows| && rows[i].volume < 1 ==> MarkInactive(rows[i]) in Route(rows).log
  {
    var marked := MarkAll(rows);
    var log := Route(rows).log;
    forall i | 0 <= i < |log| ensures exists k :: 0 <= k < |rows| && log[i] == MarkInactive(rows[k]) {
      var k :| 0 <= k < |marked| && marked[k] == log[i];
      assert log[i] == MarkInactive(rows[k]);
    }
    forall i | 0 <= i < |rows| && Inactive(rows[i]) ensures rows[i].(volume := 0) in log {
      assert marked[i] == rows[i].(volume := 0);
    }
    forall i | 0 <= i < |rows| && rows[i].volume < 1 ensures MarkInactive(rows[i]) in log {
      assert marked[i] == MarkInactive(rows[i]);
    }
  }

  /** With non-negative volumes the log and the evaluated rows split the marked rows:
      every row lands in exactly one of them. */
  lemma {:induction false} RoutePartitions(rows: seq<Row>)
    requires forall i :: 0 <= i < |rows| ==> rows[i].volume >= 0
    ensures multiset(Route(rows).log) + multiset(Route(rows).active) == multiset(MarkAll(rows))
    ensures forall r :: r in Route(rows).log ==> r !in Route(rows).active
  {
    var marked := MarkAll(rows);
    FilterPartition(marked, Logged, Evaluated);
  }

  /** A row with a negative volume that can trade is both logged and evaluated. */
  lemma {:induction false} NegativeVolumeRoutedTwice(rows: seq<Row>, i: int)
    requires 0 <= i < |rows| && rows[i].volume < 0 && !Inactive(rows[i])
    ensures rows[i] in Route(rows).log && rows[i] in Route(rows).active
  {
    RouteActive(rows);
    RouteLog(rows);
  }

  /** The evaluator leaves a row that was marked inactive unchanged. */
  lemma {:induction false} InactiveRowHolds(r: Row)
    requires r.price > 0 && Inactive(r)
    ensures Evaluator.Calculation(r) == r.acct
  {
  }

  /** A move no larger than either threshold never trades, so a row the rewrite
      leaves active only because its move equals a threshold is left unchanged. */
  lemma {:induction false} WithinThresholdsHolds(r: Row)
    requires r.price > 0
    requires Abs(r.acct.previousPrice - r.price) <= r.acct.buy && Abs(r.acct.previousPrice - r.price) <= r.acct.sell
    ensures Evaluator.Calculation(r) == r.acct
  {
    assert !Evaluator.Fires(r.acct, r.price);
  }

  /** A move equal to one threshold but above the other is evaluated and trades:
      previous price 100, quote 110, buy threshold 10, sell threshold 5. */
  lemma {:induction false} EqualToOneThresholdTrades()
    ensures var r := Row(Account("T", "u", 10, 0, 3, 100, 0, 5, 0, 300), 7, 1, 110);
      !Inactive(r) && r in Route([r]).active
        && Evaluator.Calculation(r) == r.acct.(cash := 300, numbShare := 0, totalValue := 0, profit := 30, time := 7, previousPrice := 110)
  {
    var r := Row(Account("T", "u", 10, 0, 3, 100, 0, 5, 0, 300), 7, 1, 110);
    RouteActive([r]);
    assert Evaluator.SellFires(r.acct, r.price);
  }

  /** No trade is lost among rows with a positive volume: whatever is kept away from
      the evaluator would have left its account unchanged. */
  lemma {:induction false} UnevaluatedRowsHold(rows: seq<Row>, i: int)
    requires 0 <= i < |rows| && rows[i].price > 0 && rows[i].volume >= 1
    requires rows[i] !in Route(rows).active
    ensures Evaluator.Calculation(rows[i]) == rows[i].acct
  {
    RouteActive(rows);
  }
}
