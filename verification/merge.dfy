/** The merge of the evaluated accounts back into the baseline table. The baseline
    filter keys on `user` alone, not on the table's (ticker, user) key. */
module Merge {
  import opened Seqs
  import opened Tables

  /** The baseline filter: the row's user has no updated row. */
  function OtherUser(criteria: seq<Account>): Account -> bool {
    (a: Account) => a.user !in Users(criteria)
  }

  /** The reference filter: the row's (ticker, user) key has no updated row. */
  function OtherKey(criteria: seq<Account>): Account -> bool {
    (a: Account) => KeyOf(a) !in Keys(criteria)
  }

  /** Baseline rows whose user has no updated row, followed by all updated rows. */
  function Combine(criteria: seq<Account>, cassData: seq<Account>): (merged: seq<Account>)
    ensures forall i :: 0 <= i < |criteria| ==> criteria[i] in merged
    ensures forall i :: 0 <= i < |cassData| && cassData[i].user !in Users(criteria) ==> cassData[i] in merged
    ensures forall i :: 0 <= i < |merged| ==>
      merged[i] in criteria || (merged[i] in cassData && merged[i].user !in Users(criteria))
  {
    Filter(cassData, OtherUser(criteria)) + criteria
  }

  /** A baseline row of a user who has an updated row survives only if it is itself
      one of the updated rows; in particular the user's rows under other tickers go. */
  lemma {:induction false} CombineReplacesUser(criteria: seq<Account>, cassData: seq<Account>, a: Account)
    requires a in cassData && a.user in Users(criteria) && a !in criteria
    ensures a !in Combine(criteria, cassData)
  {
  }

  /** If the baseline and the updated rows each have unique keys, so does the merge. */
  lemma {:induction false} CombineKeepsKeysUnique(criteria: seq<Account>, cassData: seq<Account>)
    requires InjectiveOn(criteria, KeyOf) && InjectiveOn(cassData, KeyOf)
    ensures InjectiveOn(Combine(criteria, cassData), KeyOf)
  {
    var kept := Filter(cassData, OtherUser(criteria));
    FilterKeepsInjective(cassData, OtherUser(criteria), KeyOf);
    forall i, j | 0 <= i < |kept| && 0 <= j < |criteria| ensures KeyOf(kept[i]) != KeyOf(criteria[j]) {
      assert criteria[j] in criteria;
    }
    InjectiveOnConcat(kept, criteria, KeyOf);
  }

  /** Replace-on-key with the table's own key (ticker, user): the reference merge. */
  function CombineByKey(criteria: seq<Account>, cassData: seq<Account>): (merged: seq<Account>)
    ensures forall i :: 0 <= i < |criteria| ==> criteria[i] in merged
    ensures forall i :: 0 <= i < |cassData| && KeyOf(cassData[i]) !in Keys(criteria) ==> cassData[i] in merged
    ensures forall i :: 0 <= i < |merged| ==>
      merged[i] in criteria || (merged[i] in cassData && KeyOf(merged[i]) !in Keys(criteria))
  {
    Filter(cassData, OtherKey(criteria)) + criteria
  }

  /** The user-keyed merge is the (ticker, user)-keyed merge exactly when no updated
      user holds a baseline row under another ticker. */
  lemma {:induction false} CombineIsKeyMerge(criteria: seq<Account>, cassData: seq<Account>)
    ensures Combine(criteria, cassData) == CombineByKey(criteria, cassData) <==>
      forall i :: 0 <= i < |cassData| && cassData[i].user in Users(criteria) ==> KeyOf(cassData[i]) in Keys(criteria)
  {
    var users := Users(criteria);
    var keys := Keys(criteria);
    // a key of an updated row always carries an updated user
    assert forall a :: KeyOf(a) in keys ==> a.user in users by {
      forall a | KeyOf(a) in keys ensures a.user in users {
        var c :| c in criteria && KeyOf(c) == KeyOf(a);
      }
    }
    if forall i :: 0 <= i < |cassData| && cassData[i].user in users ==> KeyOf(cassData[i]) in keys {
      FilterCongruent(cassData, OtherUser(criteria), OtherKey(criteria));
    } else {
      var i :| 0 <= i < |cassData| && cassData[i].user in users && KeyOf(cassData[i]) !in keys;
      var a := cassData[i];
      assert a !in criteria;
      CombineReplacesUser(criteria, cassData, a);
      assert a in CombineByKey(criteria, cassData);
    }
  }

  /** Worked example: replacing B by B' in the baseline [A, B, C] gives [A, C, B'],
      never [A, B, B', C]. */
  lemma {:induction false} ReplaceExample(a: Account, b: Account, b': Account, c: Account)
    requires a.user != b.user && b.user != c.user && a.user != c.user
    requires b'.user == b.user
    ensures Combine([b'], [a, b, c]) == [a, c, b']
  {
    assert Users([b']) == {b.user};
    var p := OtherUser([b']);
    assert p(a) && !p(b) && p(c);
    assert [c][1..] == [];
    assert Filter([c], p) == [c];
    assert [b, c][1..] == [c];
    assert Filter([b, c], p) == [c];
    assert [a, b, c][1..] == [b, c];
    assert Filter([a, b, c], p) == [a, c];
  }
}
