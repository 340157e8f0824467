/** One micro-batch of the stream: deduplicate, join, route, evaluate and merge. */
module Cycle {
  import opened Seqs
  import opened Tables
  import Evaluator
  import Routing
  import Merge

  ghost predicate PricesPositive(rows: seq<Row>) {
    forall i :: 0 <= i < |rows| ==> rows[i].price > 0
  }

  /** `calculation` applied to every row of a table, keeping the row order. */
  function Calculate(rows: seq<Row>): (out: seq<Account>)
    requires PricesPositive(rows)
    ensures |out| == |rows|
    ensures forall i :: 0 <= i < |out| ==> KeyOf(out[i]) == RowKey(rows[i])
  {
    seq(|rows|, i requires 0 <= i < |rows| => Evaluator.Calculation(rows[i]))
  }

  /** What one batch produces: the activity-log rows, the evaluated accounts, and the
      merged account table. */
  datatype Batch = Batch(log: seq<Row>, updated: seq<Account>, merged: seq<Account>)

  /** Every row handed to the evaluator pairs a baseline account with a batch quote. */
  lemma {:induction false} ActiveRowsComeFromInput(cassData: seq<Account>, flow: seq<Quote>)
    ensures var active := Routing.Route(Routing.Join(cassData, Routing.Dedup(flow))).active;
      forall i :: 0 <= i < |active| ==> active[i].acct in cassData && QuoteOf(active[i]) in flow
  {
    var df := Routing.Dedup(flow);
    var criteria := Routing.Join(cassData, df);
    Routing.RouteActive(criteria);
    var active := Routing.Route(criteria).active;
    forall i | 0 <= i < |active| ensures active[i].acct in cassData && QuoteOf(active[i]) in flow {
      var k :| 0 <= k < |criteria| && criteria[k] == active[i];
      var j :| 0 <= j < |df| && df[j] == QuoteOf(criteria[k]);
    }
  }

  /** `looping_funct` followed by `calculation` and `combine` for one batch. Quote
      prices must be positive: the division `cash / price` is undefined at zero. */
  function LoopingFunct(cassData: seq<Account>, flow: seq<Quote>): (o: Batch)
    requires forall i :: 0 <= i < |flow| ==> flow[i].price > 0
    ensures o.log == Routing.Route(Routing.Join(cassData, Routing.Dedup(flow))).log
    ensures var active := Routing.Route(Routing.Join(cassData, Routing.Dedup(flow))).active;
      PricesPositive(active) && o.updated == Calculate(active)
    ensures o.merged == Merge.Combine(o.updated, cassData)
  {
    var df := Routing.Dedup(flow);
    var criteria := Routing.Join(cassData, df);
    var routed := Routing.Route(criteria);
    ActiveRowsComeFromInput(cassData, flow);
    var updated := Calculate(routed.active);
    Batch(routed.log, updated, Merge.Combine(updated, cassData))
  }

  /** Every evaluated account is a baseline account of a quoted ticker, same key. */
  lemma {:induction false} UpdatedAreQuotedAccounts(cassData: seq<Account>, flow: seq<Quote>)
    requires forall i :: 0 <= i < |flow| ==> flow[i].price > 0
    ensures var updated := LoopingFunct(cassData, flow).updated;
      forall i :: 0 <= i < |updated| ==> KeyOf(updated[i]) in Keys(cassData) && updated[i].ticker in Tickers(flow)
  {
    var active := Routing.Route(Routing.Join(cassData, Routing.Dedup(flow))).active;
    ActiveRowsComeFromInput(cassData, flow);
    var updated := LoopingFunct(cassData, flow).updated;
    forall i | 0 <= i < |updated| ensures KeyOf(updated[i]) in Keys(cassData) && updated[i].ticker in Tickers(flow) {
      assert KeyOf(updated[i]) == KeyOf(active[i].acct);
      assert QuoteOf(active[i]).ticker == updated[i].ticker;
    }
  }

  /** Every account whose ticker is quoted and whose row can trade is evaluated against
      the batch's first quote of that ticker. */
  lemma {:induction false} QuotedAccountsAreEvaluated(cassData: seq<Account>, flow: seq<Quote>, a: Account, q: Quote)
    requires forall i :: 0 <= i < |flow| ==> flow[i].price > 0
    requires a in cassData && q in Routing.Dedup(flow) && q.ticker == a.ticker
    requires !Routing.Inactive(JoinRow(a, q)) && q.volume != 0
    ensures Evaluator.Calculation(JoinRow(a, q)) in LoopingFunct(cassData, flow).updated
  {
    var criteria := Routing.Join(cassData, Routing.Dedup(flow));
    Routing.RouteActive(criteria);
    var active := Routing.Route(criteria).active;
    var k :| 0 <= k < |criteria| && criteria[k] == JoinRow(a, q);
    var i :| 0 <= i < |active| && active[i] == JoinRow(a, q);
    assert LoopingFunct(cassData, flow).updated[i] == Evaluator.Calculation(JoinRow(a, q));
  }

  /** A batch never creates two rows with one (ticker, user) key. */
  lemma {:induction false} CycleKeepsKeysUnique(cassData: seq<Account>, flow: seq<Quote>)
    requires forall i :: 0 <= i < |flow| ==> flow[i].price > 0
    requires InjectiveOn(cassData, KeyOf)
    ensures InjectiveOn(LoopingFunct(cassData, flow).merged, KeyOf)
  {
    var df := Routing.Dedup(flow);
    var criteria := Routing.Join(cassData, df);
    Routing.JoinKeepsKeysUnique(cassData, df);
    var marked := Routing.MarkAll(criteria);
    assert InjectiveOn(marked, RowKey) by {
      forall i, j | 0 <= i < j < |marked| ensures RowKey(marked[i]) != RowKey(marked[j]) {
        assert RowKey(marked[i]) == RowKey(criteria[i]) && RowKey(marked[j]) == RowKey(criteria[j]);
      }
    }
    FilterKeepsInjective(marked, Routing.Evaluated, RowKey);
    var active := Routing.Route(criteria).active;
    var updated := LoopingFunct(cassData, flow).updated;
    assert InjectiveOn(updated, KeyOf) by {
      forall i, j | 0 <= i < j < |updated| ensures KeyOf(updated[i]) != KeyOf(updated[j]) {
        assert KeyOf(updated[i]) == RowKey(active[i]) && KeyOf(updated[j]) == RowKey(active[j]);
      }
    }
    Merge.CombineKeepsKeysUnique(updated, cassData);
  }

  /** Evaluating consistent accounts row by row yields consistent accounts. */
  lemma {:induction false} CalculateKeepsConsistent(rows: seq<Row>)
    requires PricesPositive(rows)
    requires forall i :: 0 <= i < |rows| ==> Evaluator.Consistent(rows[i].acct)
    ensures forall i :: 0 <= i < |Calculate(rows)| ==> Evaluator.Consistent(Calculate(rows)[i])
  {
    forall i | 0 <= i < |rows| ensures Evaluator.Consistent(Calculate(rows)[i]) {
      Evaluator.CalculationKeepsConsistent(rows[i]);
    }
  }

  /** Every evaluated account is consistent when the baseline is. */
  lemma {:induction false} UpdatedKeepConsistent(cassData: seq<Account>, flow: seq<Quote>)
    requires forall i :: 0 <= i < |flow| ==> flow[i].price > 0
    requires forall i :: 0 <= i < |cassData| ==> Evaluator.Consistent(cassData[i])
    ensures var updated := LoopingFunct(cassData, flow).updated;
      forall i :: 0 <= i < |updated| ==> Evaluator.Consistent(updated[i])
  {
    var active := Routing.Route(Routing.Join(cassData, Routing.Dedup(flow))).active;
    ActiveRowsComeFromInput(cassData, flow);
    forall i | 0 <= i < |active| ensures Evaluator.Consistent(active[i].acct) {
      var k :| 0 <= k < |cassData| && cassData[k] == active[i].acct;
    }
    CalculateKeepsConsistent(active);
  }

  /** Merging consistent updates into a consistent baseline gives a consistent table. */
  lemma {:induction false} CombineKeepsConsistent(updated: seq<Account>, cassData: seq<Account>)
    requires forall i :: 0 <= i < |updated| ==> Evaluator.Consistent(updated[i])
    requires forall i :: 0 <= i < |cassData| ==> Evaluator.Consistent(cassData[i])
    ensures var merged := Merge.Combine(updated, cassData);
      forall i :: 0 <= i < |merged| ==> Evaluator.Consistent(merged[i])
  {
    var merged := Merge.Combine(updated, cassData);
    forall i | 0 <= i < |merged| ensures Evaluator.Consistent(merged[i]) {
      if merged[i] in updated {
        var j :| 0 <= j < |updated| && updated[j] == merged[i];
      } else {
        var j :| 0 <= j < |cassData| && cassData[j] == merged[i];
      }
    }
  }

  /** A batch keeps every account consistent: no negative cash, shares or value, and
      no partially open position. */
  lemma {:induction false} CycleKeepsConsistent(cassData: seq<Account>, flow: seq<Quote>)
    requires forall i :: 0 <= i < |flow| ==> flow[i].price > 0
    requires forall i :: 0 <= i < |cassData| ==> Evaluator.Consistent(cassData[i])
    ensures var merged := LoopingFunct(cassData, flow).merged;
      forall i :: 0 <= i < |merged| ==> Evaluator.Consistent(merged[i])
  {
    UpdatedKeepConsistent(cassData, flow);
    var o := LoopingFunct(cassData, flow);
    CombineKeepsConsistent(o.updated, cassData);
  }

  /** Every evaluated account's user holds a baseline account of a quoted ticker. */
  lemma {:induction false} UpdatedUsersHoldQuotedTicker(cassData: seq<Account>, flow: seq<Quote>)
    requires forall i :: 0 <= i < |flow| ==> flow[i].price > 0
    ensures var updated := LoopingFunct(cassData, flow).updated;
      forall k :: 0 <= k < |updated| ==>
        exists j :: 0 <= j < |cassData| && cassData[j].user == updated[k].user && cassData[j].ticker in Tickers(flow)
  {
    UpdatedAreQuotedAccounts(cassData, flow);
    var updated := LoopingFunct(cassData, flow).updated;
    forall k | 0 <= k < |updated|
      ensures exists j :: 0 <= j < |cassData| && cassData[j].user == updated[k].user && cassData[j].ticker in Tickers(flow)
    {
      var a :| a in cassData && KeyOf(a) == KeyOf(updated[k]);
      var j :| 0 <= j < |cassData| && cassData[j] == a;
    }
  }

  /** An account is carried into the merged table unchanged when the batch quotes
      none of the tickers its user holds: then no evaluated row can displace it. */
  lemma {:induction false} UntouchedAccountsSurvive(cassData: seq<Account>, flow: seq<Quote>, i: int)
    requires forall i :: 0 <= i < |flow| ==> flow[i].price > 0
    requires 0 <= i < |cassData|
    requires forall j :: 0 <= j < |cassData| && cassData[j].user == cassData[i].user ==>
      cassData[j].ticker !in Tickers(flow)
    ensures cassData[i] in LoopingFunct(cassData, flow).merged
  {
    UpdatedUsersHoldQuotedTicker(cassData, flow);
    var o := LoopingFunct(cassData, flow);
    forall a | a in o.updated ensures a.user != cassData[i].user {
      var k :| 0 <= k < |o.updated| && o.updated[k] == a;
      var j :| 0 <= j < |cassData| && cassData[j].user == o.updated[k].user && cassData[j].ticker in Tickers(flow);
    }
    assert cassData[i].user !in Users(o.updated);
  }

  function UserOf(a: Account): string {
    a.user
  }

  /** When every user holds a single account, an account whose ticker the batch does
      not quote is carried over unchanged. */
  lemma {:induction false} UniqueUsersUntouchedSurvive(cassData: seq<Account>, flow: seq<Quote>)
    requires forall i :: 0 <= i < |flow| ==> flow[i].price > 0
    requires InjectiveOn(cassData, UserOf)
    ensures forall i :: 0 <= i < |cassData| && cassData[i].ticker !in Tickers(flow) ==>
      cassData[i] in LoopingFunct(cassData, flow).merged
  {
    forall i | 0 <= i < |cassData| && cassData[i].ticker !in Tickers(flow)
      ensures cassData[i] in LoopingFunct(cassData, flow).merged
    {
      forall j | 0 <= j < |cassData| && UserOf(cassData[j]) == UserOf(cassData[i])
        ensures j == i
      {
      }
      UntouchedAccountsSurvive(cassData, flow, i);
    }
  }
}
