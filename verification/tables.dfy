/** Sequence helpers shared by the whole model: the row filter that Spark's
    `DataFrame.filter` performs, and key-uniqueness over a sequence. */
module Seqs {

  /** The elements of `s` that satisfy `p`, in their original order. */
  function Filter<T>(s: seq<T>, p: T -> bool): (r: seq<T>)
    ensures |r| <= |s|
    ensures forall i :: 0 <= i < |r| ==> r[i] in s && p(r[i])
    ensures forall i :: 0 <= i < |s| && p(s[i]) ==> s[i] in r
    decreases |s|
  {
    if |s| == 0 then []
    else (if p(s[0]) then [s[0]] else []) + Filter(s[1..], p)
  }

  /** No two positions of `s` share a key. */
  ghost predicate InjectiveOn<T, K>(s: seq<T>, key: T -> K) {
    forall i, j :: 0 <= i < j < |s| ==> key(s[i]) != key(s[j])
  }

  /** Two complementary filters split `s` without losing or duplicating an element. */
  lemma {:induction false} FilterPartition<T>(s: seq<T>, p: T -> bool, q: T -> bool)
    requires forall i :: 0 <= i < |s| ==> (q(s[i]) <==> !p(s[i]))
    ensures multiset(Filter(s, p)) + multiset(Filter(s, q)) == multiset(s)
    decreases |s|
  {
    if |s| > 0 {
      assert s == [s[0]] + s[1..];
      FilterPartition(s[1..], p, q);
    }
  }

  /** Filters that agree on every element of `s` select the same subsequence. */
  lemma {:induction false} FilterCongruent<T>(s: seq<T>, p: T -> bool, q: T -> bool)
    requires forall i :: 0 <= i < |s| ==> (p(s[i]) <==> q(s[i]))
    ensures Filter(s, p) == Filter(s, q)
    decreases |s|
  {
    if |s| > 0 {
      FilterCongruent(s[1..], p, q);
    }
  }

  /** Dropping elements never makes two keys collide. */
  lemma {:induction false} FilterKeepsInjective<T, K>(s: seq<T>, p: T -> bool, key: T -> K)
    requires InjectiveOn(s, key)
    ensures InjectiveOn(Filter(s, p), key)
    decreases |s|
  {
    if |s| > 0 {
      var tail := Filter(s[1..], p);
      InjectiveOnTail(s, key);
      FilterKeepsInjective(s[1..], p, key);
      if p(s[0]) {
        forall t | 0 <= t < |tail| ensures key(tail[t]) != key(s[0]) {
          var k :| 0 <= k < |s[1..]| && s[1..][k] == tail[t];
          assert s[k + 1] == tail[t];
        }
        InjectiveOnConcat([s[0]], tail, key);
      }
    }
  }

  lemma {:induction false} InjectiveOnTail<T, K>(s: seq<T>, key: T -> K)
    requires |s| > 0 && InjectiveOn(s, key)
    ensures InjectiveOn(s[1..], key)
  {
    forall i, j | 0 <= i < j < |s[1..]| ensures key(s[1..][i]) != key(s[1..][j]) {
      assert s[1..][i] == s[i + 1] && s[1..][j] == s[j + 1];
    }
  }

  /** Concatenating two key-unique sequences whose keys never meet stays key-unique. */
  lemma {:induction false} InjectiveOnConcat<T, K>(s: seq<T>, t: seq<T>, key: T -> K)
    requires InjectiveOn(s, key) && InjectiveOn(t, key)
    requires forall i, j :: 0 <= i < |s| && 0 <= j < |t| ==> key(s[i]) != key(t[j])
    ensures InjectiveOn(s + t, key)
  {
    var r := s + t;
    forall i, j | 0 <= i < j < |r| ensures key(r[i]) != key(r[j]) {
      if j < |s| {
        assert r[i] == s[i] && r[j] == s[j];
      } else if i < |s| {
        assert r[i] == s[i] && r[j] == t[j - |s|];
      } else {
        assert r[i] == t[i - |s|] && r[j] == t[j - |s|];
      }
    }
  }
}

/** The data the settlement engine works on: a row of the account table, a decoded quote
    tick, and the row that joining the two on `ticker` produces. */
module Tables {

  /** One row of the `user_data` account table, fields in the table's column order.
      All money and price columns are integers: the quote price is rounded before it
      reaches the engine. */
  datatype Account = Account(
    ticker: string,
    user: string,
    buy: int,            // buy threshold: how far the price must fall below `previousPrice`
    cash: int,
    numbShare: int,      // shares held
    previousPrice: int,  // price at the last trade
    profit: int,         // cumulative realised profit
    sell: int,           // sell threshold: how far the price must rise above `previousPrice`
    time: int,           // tick id of the last trade
    totalValue: int)     // cost basis of the shares held

  /** One decoded tick `(time_new, ticker, volume, price)`. */
  datatype Quote = Quote(timeNew: int, ticker: string, volume: int, price: int)

  /** A row of the account/quote inner join: the account columns plus the quote's
      `time_new`, `volume` and `price` (the join column `ticker` is the account's). */
  datatype Row = Row(acct: Account, timeNew: int, volume: int, price: int)

  /** The persisted table's primary key. */
  datatype Key = Key(ticker: string, user: string)

  function KeyOf(a: Account): Key {
    Key(a.ticker, a.user)
  }

  function RowKey(r: Row): Key {
    KeyOf(r.acct)
  }

  function QuoteTicker(q: Quote): string {
    q.ticker
  }

  /** The row that the join builds from an account and a quote of its ticker. */
  function JoinRow(a: Account, q: Quote): Row {
    Row(a, q.timeNew, q.volume, q.price)
  }

  /** The quote a joined row was built from. */
  function QuoteOf(r: Row): (q: Quote)
    ensures JoinRow(r.acct, q) == r
    ensures q.ticker == r.acct.ticker
  {
    Quote(r.timeNew, r.acct.ticker, r.volume, r.price)
  }

  function Tickers(qs: seq<Quote>): set<string> {
    set q | q in qs :: q.ticker
  }

  lemma {:induction false} TickersSnoc(qs: seq<Quote>, q: Quote)
    ensures Tickers(qs + [q]) == Tickers(qs) + {q.ticker}
  {
    assert forall x :: x in qs + [q] <==> x in qs || x == q;
  }

  function Keys(s: seq<Account>): set<Key> {
    set a | a in s :: KeyOf(a)
  }

  function Users(s: seq<Account>): set<string> {
    set a | a in s :: a.user
  }
}
