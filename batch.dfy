/**
 * The `__main__` part of the batch run: collecting the outcomes of the jobs
 * as they complete, and ranking the collected rows by score.
 *
 * The thread pool is abstracted away: the outcomes arrive as a sequence in
 * completion order, which holds every submitted job's outcome once.
 */
module Batch {
  import opened Wrappers
  import opened Docking

  /** What `future.result()` gives for one job: the row `run_docking` returned, or the exception it raised. */
  datatype Outcome = Returned(row: Row) | Raised(message: string)

  /** The rows of the jobs that returned, in the order given. */
  function Successes(outcomes: seq<Outcome>): seq<Row> {
    if outcomes == [] then []
    else
      var last := outcomes[|outcomes| - 1];
      Successes(outcomes[..|outcomes| - 1]) + (if last.Returned? then [last.row] else [])
  }

  /**
   * The collection loop: each row a job returned is appended, in completion
   * order; a job that raised is reported and dropped.
   */
  method CollectResults(completed: seq<Outcome>) returns (results: seq<Row>)
    ensures results == Successes(completed)
  {
    results := [];
    var i := 0;
    while i < |completed|
      invariant 0 <= i <= |completed|
      invariant results == Successes(completed[..i])
    {
      assert completed[..i + 1][..i] == completed[..i];
      if completed[i].Returned? {
        results := results + [completed[i].row];
      }
      i := i + 1;
    }
    assert completed[..i] == completed;
  }

  /** The positions of the jobs that returned. */
  ghost function ReturnedPositions(outcomes: seq<Outcome>): set<nat> {
    set k: nat | k < |outcomes| && outcomes[k].Returned?
  }

  /** There is one row per job that returned, and so no more rows than jobs. */
  lemma {:induction false} SuccessCount(outcomes: seq<Outcome>)
    ensures |Successes(outcomes)| == |ReturnedPositions(outcomes)| <= |outcomes|
  {
    if outcomes != [] {
      var n := |outcomes| - 1;
      var front := outcomes[..n];
      SuccessCount(front);
      var before := ReturnedPositions(front);
      assert before == set k: nat | k < n && outcomes[k].Returned?;
      if outcomes[n].Returned? {
        assert ReturnedPositions(outcomes) == before + {n};
        assert n !in before;
      } else {
        assert ReturnedPositions(outcomes) == before;
      }
    }
  }

  /** Every job contributes a row exactly when none raised. */
  lemma {:induction false} AllReturnedIffNoneDropped(outcomes: seq<Outcome>)
    ensures |Successes(outcomes)| == |outcomes| <==> forall k :: 0 <= k < |outcomes| ==> outcomes[k].Returned?
  {
    if outcomes != [] {
      var n := |outcomes| - 1;
      AllReturnedIffNoneDropped(outcomes[..n]);
      SuccessCount(outcomes[..n]);
    }
  }

  /** A row is collected exactly when some job returned it. */
  lemma {:induction false} CollectedRows(outcomes: seq<Outcome>, row: Row)
    ensures row in Successes(outcomes) <==> Returned(row) in outcomes
  {
    if outcomes != [] {
      var n := |outcomes| - 1;
      CollectedRows(outcomes[..n], row);
      assert outcomes == outcomes[..n] + [outcomes[n]];
    }
  }

  lemma {:induction false} SuccessesAppend(a: seq<Outcome>, b: seq<Outcome>)
    ensures Successes(a + b) == Successes(a) + Successes(b)
    decreases |b|
  {
    if b != [] {
      var n := |b| - 1;
      assert (a + b)[..|a + b| - 1] == a + b[..n];
      SuccessesAppend(a, b[..n]);
    } else {
      assert a + b == a;
    }
  }

  /**
   * The collected rows do not depend on the completion order, up to order:
   * any two orders of the same outcomes collect the same rows.
   */
  lemma {:induction false} CompletionOrderIrrelevant(order1: seq<Outcome>, order2: seq<Outcome>)
    requires multiset(order1) == multiset(order2)
    ensures multiset(Successes(order1)) == multiset(Successes(order2))
    decreases |order1|
  {
    if order1 != [] {
      var n := |order1| - 1;
      var x := order1[n];
      assert x in multiset(order2);
      var j :| 0 <= j < |order2| && order2[j] == x;
      var before, after := order2[..j], order2[j + 1..];
      assert order2 == before + [x] + after;
      assert order1 == order1[..n] + [x];
      assert multiset(order1) == multiset(order1[..n]) + multiset{x};
      assert multiset(order2) == multiset(before) + multiset{x} + multiset(after);
      assert multiset(before + after) == multiset(before) + multiset(after);
      assert multiset(order1[..n]) == multiset(order1) - multiset{x};
      CompletionOrderIrrelevant(order1[..n], before + after);
      SuccessesAppend(before, after);
      SuccessesAppend(before + [x], after);
      SuccessesAppend(before, [x]);
      SuccessesAppend(order1[..n], [x]);
    }
  }

  /** May a row with score `a` stand before one with score `b`: ascending, with missing scores last. */
  predicate ScoreOrdered(a: Option<real>, b: Option<real>) {
    match a
    case None => b.None?
    case Some(x) => b.None? || x <= b.value
  }

  /** The order `sort_values(by="best_score")` produces. */
  predicate Ranked(table: seq<Row>) {
    forall i, j :: 0 <= i < j < |table| ==> ScoreOrdered(table[i].bestScore, table[j].bestScore)
  }

  /** Scored rows come in ascending order of score, and every unscored row after every scored one. */
  lemma RankedMeans(table: seq<Row>)
    ensures Ranked(table) <==>
      && (forall i, j :: 0 <= i < j < |table| && table[i].bestScore.Some? && table[j].bestScore.Some? ==>
            table[i].bestScore.value <= table[j].bestScore.value)
      && (forall i, j :: 0 <= i < j < |table| && table[i].bestScore.None? ==> table[j].bestScore.None?)
  {
  }

  lemma ScoreOrderedTotal(a: Option<real>, b: Option<real>)
    ensures ScoreOrdered(a, b) || ScoreOrdered(b, a)
  {
  }

  lemma RankedTail(table: seq<Row>)
    requires Ranked(table) && table != []
    ensures Ranked(table[1..])
  {
    var tail := table[1..];
    forall i, j | 0 <= i < j < |tail| ensures ScoreOrdered(tail[i].bestScore, tail[j].bestScore) {
      assert tail[i] == table[i + 1] && tail[j] == table[j + 1];
    }
  }

  /** A row that may stand before every row of a ranked table, put in front of it. */
  lemma RankedCons(row: Row, table: seq<Row>)
    requires Ranked(table)
    requires forall k :: 0 <= k < |table| ==> ScoreOrdered(row.bestScore, table[k].bestScore)
    ensures Ranked([row] + table)
  {
    var r := [row] + table;
    forall i, j | 0 <= i < j < |r| ensures ScoreOrdered(r[i].bestScore, r[j].bestScore) {
      assert r[j] == table[j - 1];
      if i > 0 {
        assert r[i] == table[i - 1];
      }
    }
  }

  lemma HeadBeforeTail(table: seq<Row>)
    requires Ranked(table) && table != []
    ensures forall k :: 0 <= k < |table[1..]| ==> ScoreOrdered(table[0].bestScore, table[1..][k].bestScore)
  {
    forall k | 0 <= k < |table[1..]| ensures ScoreOrdered(table[0].bestScore, table[1..][k].bestScore) {
      assert table[1..][k] == table[k + 1];
    }
  }

  /** A row that may stand before `row` and before every row of `table` may stand before every row of `r`. */
  lemma BeforeAllInserted(first: Row, row: Row, table: seq<Row>, r: seq<Row>)
    requires ScoreOrdered(first.bestScore, row.bestScore)
    requires forall k :: 0 <= k < |table| ==> ScoreOrdered(first.bestScore, table[k].bestScore)
    requires multiset(r) == multiset(table) + multiset{row}
    ensures forall k :: 0 <= k < |r| ==> ScoreOrdered(first.bestScore, r[k].bestScore)
  {
    forall k | 0 <= k < |r| ensures ScoreOrdered(first.bestScore, r[k].bestScore) {
      assert r[k] in multiset(r);
      if r[k] != row {
        assert r[k] in multiset(table);
        var j :| 0 <= j < |table| && table[j] == r[k];
      }
    }
  }

  function InsertRow(row: Row, table: seq<Row>): (r: seq<Row>)
    requires Ranked(table)
    ensures Ranked(r) && multiset(r) == multiset(table) + multiset{row}
  {
    if table == [] then [row]
    else
      assert table == [table[0]] + table[1..];
      if ScoreOrdered(row.bestScore, table[0].bestScore) then
        RankedCons(row, table);
        [row] + table
      else
        RankedTail(table);
        var rest := InsertRow(row, table[1..]);
        ScoreOrderedTotal(row.bestScore, table[0].bestScore);
        HeadBeforeTail(table);
        BeforeAllInserted(table[0], row, table[1..], rest);
        RankedCons(table[0], rest);
        [table[0]] + rest
  }

  /** A reference sort: insertion sort by score. */
  function SortRows(rows: seq<Row>): (table: seq<Row>)
    ensures Ranked(table) && multiset(table) == multiset(rows)
  {
    if rows == [] then []
    else
      assert rows == [rows[0]] + rows[1..];
      InsertRow(rows[0], SortRows(rows[1..]))
  }

  /**
   * `pd.DataFrame(results).sort_values(by="best_score")`: a ranked
   * permutation of the rows; on an empty list the frame has no such column
   * and pandas raises, which is None here.
   */
  function Rank(rows: seq<Row>): (table: Option<seq<Row>>)
    ensures table.None? <==> rows == []
    ensures table.Some? ==> Ranked(table.value) && multiset(table.value) == multiset(rows)
  {
    if rows == [] then None else Some(SortRows(rows))
  }

  /** The score column of a table. */
  function Scores(table: seq<Row>): (s: seq<Option<real>>)
    ensures |s| == |table|
  {
    if table == [] then [] else [table[0].bestScore] + Scores(table[1..])
  }

  lemma {:induction false} ScoresAt(table: seq<Row>, k: nat)
    requires k < |table|
    ensures Scores(table)[k] == table[k].bestScore
  {
    if k > 0 {
      ScoresAt(table[1..], k - 1);
    }
  }

  predicate InScoreOrder(s: seq<Option<real>>) {
    forall i, j :: 0 <= i < j < |s| ==> ScoreOrdered(s[i], s[j])
  }

  lemma {:induction false} ScoresAppend(a: seq<Row>, b: seq<Row>)
    ensures Scores(a + b) == Scores(a) + Scores(b)
  {
    if a == [] {
      assert a + b == b;
    } else {
      assert (a + b)[1..] == a[1..] + b;
      ScoresAppend(a[1..], b);
    }
  }

  /** Taking the same element out of two permutations of each other leaves permutations of each other. */
  lemma RemoveFromBoth<T>(s1: seq<T>, s2: seq<T>, j: nat)
    requires multiset(s1) == multiset(s2) && s1 != [] && j < |s2| && s2[j] == s1[0]
    ensures multiset(s1[1..]) == multiset(s2[..j] + s2[j + 1..])
  {
    var x := s1[0];
    assert s2 == s2[..j] + [x] + s2[j + 1..];
    assert s1 == [x] + s1[1..];
    assert multiset(s1) == multiset{x} + multiset(s1[1..]);
    assert multiset(s2) == multiset(s2[..j]) + multiset{x} + multiset(s2[j + 1..]);
    assert multiset(s2[..j] + s2[j + 1..]) == multiset(s2[..j]) + multiset(s2[j + 1..]);
    assert multiset(s1[1..]) == multiset(s1) - multiset{x};
  }

  lemma {:induction false} ScoresOfPermutation(t1: seq<Row>, t2: seq<Row>)
    requires multiset(t1) == multiset(t2)
    ensures multiset(Scores(t1)) == multiset(Scores(t2))
    decreases |t1|
  {
    if t1 != [] {
      var x := t1[0];
      var j := IndexOf(t2, x);
      var before, after := t2[..j], t2[j + 1..];
      RemoveFromBoth(t1, t2, j);
      ScoresOfPermutation(t1[1..], before + after);
      ScoresSplit(t2, j);
      ScoresAppend(before, after);
    }
  }

  lemma {:induction false} ScoresSplit(t: seq<Row>, j: nat)
    requires j < |t|
    ensures Scores(t) == Scores(t[..j]) + [t[j].bestScore] + Scores(t[j + 1..])
  {
    assert t == t[..j] + [t[j]] + t[j + 1..];
    ScoresAppend(t[..j] + [t[j]], t[j + 1..]);
    ScoresAppend(t[..j], [t[j]]);
  }

  /** A position at which an element of a sequence stands. */
  lemma IndexOf<T>(s: seq<T>, x: T) returns (j: nat)
    requires x in multiset(s)
    ensures j < |s| && s[j] == x
  {
    j :| j < |s| && s[j] == x;
  }

  lemma RankedScores(table: seq<Row>)
    requires Ranked(table)
    ensures InScoreOrder(Scores(table))
  {
    forall i, j | 0 <= i < j < |table| ensures ScoreOrdered(Scores(table)[i], Scores(table)[j]) {
      ScoresAt(table, i);
      ScoresAt(table, j);
    }
  }

  /** Two score columns in order with the same scores start with the same score. */
  lemma SameFirstScore(s1: seq<Option<real>>, s2: seq<Option<real>>)
    requires InScoreOrder(s1) && InScoreOrder(s2) && multiset(s1) == multiset(s2) && s1 != []
    ensures s2 != [] && s1[0] == s2[0]
  {
    assert s1[0] in multiset(s2);
    assert s2[0] in multiset(s1);
    var i :| 0 <= i < |s1| && s1[i] == s2[0];
    var j :| 0 <= j < |s2| && s2[j] == s1[0];
    assert ScoreOrdered(s1[0], s2[0]) by {
      if i > 0 { assert ScoreOrdered(s1[0], s1[i]); }
    }
    assert ScoreOrdered(s2[0], s1[0]) by {
      if j > 0 { assert ScoreOrdered(s2[0], s2[j]); }
    }
  }

  lemma TailMultiset<T>(s: seq<T>)
    requires s != []
    ensures multiset(s[1..]) == multiset(s) - multiset{s[0]}
  {
    assert s == [s[0]] + s[1..];
  }

  lemma InScoreOrderTail(s: seq<Option<real>>)
    requires InScoreOrder(s) && s != []
    ensures InScoreOrder(s[1..])
  {
    var tail := s[1..];
    forall i, j | 0 <= i < j < |tail| ensures ScoreOrdered(tail[i], tail[j]) {
      assert tail[i] == s[i + 1] && tail[j] == s[j + 1];
    }
  }

  lemma {:induction false} SortedScoresUnique(s1: seq<Option<real>>, s2: seq<Option<real>>)
    requires InScoreOrder(s1) && InScoreOrder(s2) && multiset(s1) == multiset(s2)
    ensures s1 == s2
    decreases |s1|
  {
    if s1 == [] {
      assert |multiset(s2)| == 0;
    } else {
      SameFirstScore(s1, s2);
      TailMultiset(s1);
      TailMultiset(s2);
      InScoreOrderTail(s1);
      InScoreOrderTail(s2);
      SortedScoresUnique(s1[1..], s2[1..]);
      assert s1 == [s1[0]] + s1[1..];
      assert s2 == [s2[0]] + s2[1..];
    }
  }

  /**
   * The sort's order among rows with equal scores is not fixed, but the score
   * column is: any two rankings of the same rows have the same scores in the
   * same positions.
   */
  lemma RankingDeterminesScores(t1: seq<Row>, t2: seq<Row>)
    requires Ranked(t1) && Ranked(t2) && multiset(t1) == multiset(t2)
    ensures Scores(t1) == Scores(t2)
  {
    RankedScores(t1);
    RankedScores(t2);
    ScoresOfPermutation(t1, t2);
    SortedScoresUnique(Scores(t1), Scores(t2));
  }

  /**
   * Three rows, two scored and one not: they can be ranked in one way only,
   * the better score first and the unscored row last.
   */
  lemma NullsLastThreeRows(table: seq<Row>, a: Row, b: Row, c: Row)
    requires a.bestScore.Some? && b.bestScore.Some? && b.bestScore.value < a.bestScore.value && c.bestScore.None?
    requires Ranked(table) && multiset(table) == multiset([a, b, c])
    ensures table == [b, a, c]
  {
    var expected := [b, a, c];
    assert multiset(expected) == multiset([a, b, c]);
    assert Ranked(expected);
    RankingDeterminesScores(table, expected);
    assert |table| == 3 by {
      assert |multiset(table)| == 3;
    }
    ScoresAt(table, 0);
    ScoresAt(table, 1);
    ScoresAt(table, 2);
    ScoresAt(expected, 0);
    ScoresAt(expected, 1);
    ScoresAt(expected, 2);
    RowsFromScores(table, a, b, c);
  }

  /** Three rows with distinct scores, in the order their scores give. */
  lemma RowsFromScores(table: seq<Row>, a: Row, b: Row, c: Row)
    requires a.bestScore.Some? && b.bestScore.Some? && b.bestScore.value < a.bestScore.value && c.bestScore.None?
    requires |table| == 3 && multiset(table) == multiset([a, b, c])
    requires table[0].bestScore == b.bestScore && table[1].bestScore == a.bestScore && table[2].bestScore == c.bestScore
    ensures table == [b, a, c]
  {
    OneOfThree(table, 0, a, b, c);
    OneOfThree(table, 1, a, b, c);
    OneOfThree(table, 2, a, b, c);
  }

  lemma OneOfThree(table: seq<Row>, k: nat, a: Row, b: Row, c: Row)
    requires k < |table| && multiset(table) == multiset([a, b, c])
    ensures table[k] == a || table[k] == b || table[k] == c
  {
    assert table[k] in multiset(table);
    assert table[k] in [a, b, c];
  }

  /**
   * The batch after its jobs have run: collect the outcomes in completion
   * order, then rank them. `submitted` holds the outcome of each ligand
   * file's job; `completed` is the same outcomes in the order they finished.
   */
  method RunBatch(submitted: seq<Outcome>, completed: seq<Outcome>) returns (table: Option<seq<Row>>)
    requires multiset(completed) == multiset(submitted)
    ensures table.None? <==> forall k :: 0 <= k < |submitted| ==> submitted[k].Raised?
    ensures table.Some? ==>
      && Ranked(table.value)
      && multiset(table.value) == multiset(Successes(submitted))
      && |table.value| <= |submitted|
  {
    var results := CollectResults(completed);
    CompletionOrderIrrelevant(completed, submitted);
    table := Rank(results);
    SuccessCount(submitted);
    NoRowsIffAllRaised(submitted);
    if table.Some? {
      assert |table.value| == |multiset(Successes(submitted))|;
    }
  }

  lemma {:induction false} NoRowsIffAllRaised(outcomes: seq<Outcome>)
    ensures Successes(outcomes) == [] <==> forall k :: 0 <= k < |outcomes| ==> outcomes[k].Raised?
  {
    if outcomes != [] {
      var n := |outcomes| - 1;
      var front := outcomes[..n];
      NoRowsIffAllRaised(front);
      assert forall k :: 0 <= k < n ==> front[k] == outcomes[k];
      if outcomes[n].Returned? {
        assert |Successes(outcomes)| > 0;
      }
    }
  }
}
