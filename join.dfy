/** `join_on_tfidf`: the rows of `left`, each repeated once per best match of
    its key string, side by side with the matched row of `right`. The order of
    the rows `pd.merge` returns is left open: the result is a multiset. */
module TfidfJoin {
  import opened TfidfMatch

  /** A row of `left.join(matches)` with the `From Index` column (lines 68-69):
      a left row with one of its match rows, or, had it none, with empty
      match columns. */
  datatype JoinRow<L> =
    | Matched(left: L, fromIndex: nat, m: Match)
    | Unmatched(left: L, fromIndex: nat)

  /** A row of the merged DataFrame (line 70): the left row's columns, the
      match columns, `From Index` and the right row's columns. */
  datatype Joined<L, R> = Joined(left: L, from: string, score: real, toIndex: nat, to: string, fromIndex: nat, right: R)

  /** `left[left_on]` (line 67): one column, as a series of strings. */
  function Column<T>(rows: seq<T>, on: T -> string): (r: seq<string>)
    ensures |r| == |rows|
    ensures forall i :: 0 <= i < |rows| ==> r[i] == on(rows[i])
  {
    seq(|rows|, i requires 0 <= i < |rows| => on(rows[i]))
  }

  /** The match rows whose index is `i`, in order. */
  function Hits(ms: seq<Match>, i: nat): (r: seq<Match>)
    ensures forall k :: 0 <= k < |r| ==> r[k].fromIndex == i
  {
    if |ms| == 0 then []
    else (if ms[0].fromIndex == i then [ms[0]] else []) + Hits(ms[1..], i)
  }

  /** The rows `left.join` gives left row `i`: one per match row with index
      `i`, or one with empty match columns when there is none. */
  function Attach<L>(l: L, i: nat, hits: seq<Match>): seq<JoinRow<L>> {
    if |hits| == 0 then [Unmatched(l, i)]
    else seq(|hits|, k requires 0 <= k < |hits| => Matched(l, i, hits[k]))
  }

  /** `left.join(matches)` (line 68) on the default index `0..|left|`, from left
      row `i` on, with `From Index` set to the index (line 69). */
  function LeftJoin<L>(left: seq<L>, ms: seq<Match>, i: nat): seq<JoinRow<L>>
    decreases |left| - i
  {
    if i >= |left| then [] else Attach(left[i], i, Hits(ms, i)) + LeftJoin(left, ms, i + 1)
  }

  function Combine<L, R>(l: L, i: nat, m: Match, r: R): Joined<L, R> {
    Joined(l, m.from, m.score, m.toIndex, m.to, i, r)
  }

  /** The inner merge of one row with the right rows at positions `p` onwards
      (line 70): a row joins the right row whose position equals its
      `To Index`; a row with empty match columns joins none. */
  function MergeRow<L, R>(row: JoinRow<L>, right: seq<R>, p: nat): seq<Joined<L, R>>
    decreases |right| - p
  {
    if p >= |right| then []
    else
      (if row.Matched? && row.m.toIndex == p then [Combine(row.left, row.fromIndex, row.m, right[p])] else [])
      + MergeRow(row, right, p + 1)
  }

  function Merge<L, R>(rows: seq<JoinRow<L>>, right: seq<R>): seq<Joined<L, R>> {
    if |rows| == 0 then [] else MergeRow(rows[0], right, 0) + Merge(rows[1..], right)
  }

  /** `join_on_tfidf` (lines 62-71) for the similarity matrix `sim` of the two
      key columns. */
  function JoinOnTfidf<L(==), R(==)>(left: seq<L>, right: seq<R>, leftOn: L -> string, rightOn: R -> string,
                                     sim: seq<seq<real>>): (r: Result<multiset<Joined<L, R>>>)
    requires IsMatrix(sim, |left|, |right|)
    ensures r.Err? <==> Tfidf(Column(left, leftOn), Column(right, rightOn), sim).Err?
    ensures r.Err? ==> r.error == Tfidf(Column(left, leftOn), Column(right, rightOn), sim).error
  {
    match Tfidf(Column(left, leftOn), Column(right, rightOn), sim)
    case Err(e) => Err(e)
    case Ok(ms) => Ok(multiset(Merge(LeftJoin(left, ms, 0), right)))
  }

  // ---------------------------------------------------------------------
  // The fan-out: one joined row per match row

  predicate InRange(ms: seq<Match>, n: nat, m: nat) {
    forall k :: 0 <= k < |ms| ==> ms[k].fromIndex < n && ms[k].toIndex < m
  }

  /** The joined row each match row gives: its left row, itself, and the right
      row at its `To Index`. */
  function FanOut<L, R>(left: seq<L>, right: seq<R>, ms: seq<Match>): (r: seq<Joined<L, R>>)
    requires InRange(ms, |left|, |right|)
    ensures |r| == |ms|
    ensures forall k :: 0 <= k < |ms| ==>
      r[k] == Combine(left[ms[k].fromIndex], ms[k].fromIndex, ms[k], right[ms[k].toIndex])
  {
    seq(|ms|, k requires 0 <= k < |ms| => Combine(left[ms[k].fromIndex], ms[k].fromIndex, ms[k], right[ms[k].toIndex]))
  }

  /** The match rows with index `i` or more, in order. */
  function AtLeast(ms: seq<Match>, i: nat): seq<Match> {
    if |ms| == 0 then []
    else (if ms[0].fromIndex >= i then [ms[0]] else []) + AtLeast(ms[1..], i)
  }

  /** Each match row as a row of `left.join`. */
  function Lift<L>(left: seq<L>, ms: seq<Match>): (r: seq<JoinRow<L>>)
    requires forall k :: 0 <= k < |ms| ==> ms[k].fromIndex < |left|
    ensures |r| == |ms|
  {
    seq(|ms|, k requires 0 <= k < |ms| => Matched(left[ms[k].fromIndex], ms[k].fromIndex, ms[k]))
  }

  predicate Sorted(ms: seq<Match>) {
    forall j, k :: 0 <= j < k < |ms| ==> ms[j].fromIndex <= ms[k].fromIndex
  }

  lemma {:induction false} HitsNone(ms: seq<Match>, i: nat)
    requires forall k :: 0 <= k < |ms| ==> ms[k].fromIndex != i
    ensures Hits(ms, i) == []
  {
    if |ms| > 0 {
      assert forall k :: 0 <= k < |ms[1..]| ==> ms[1..][k] == ms[k + 1];
      HitsNone(ms[1..], i);
    }
  }

  lemma {:induction false} AtLeastAll(ms: seq<Match>, i: nat)
    requires forall k :: 0 <= k < |ms| ==> ms[k].fromIndex >= i
    ensures AtLeast(ms, i) == ms
  {
    if |ms| > 0 {
      assert forall k :: 0 <= k < |ms[1..]| ==> ms[1..][k] == ms[k + 1];
      AtLeastAll(ms[1..], i);
      assert ms == [ms[0]] + ms[1..];
    }
  }

  lemma AllAbove(ms: seq<Match>, i: nat)
    requires forall k :: 0 <= k < |ms| ==> ms[k].fromIndex > i
    ensures Hits(ms, i) == [] && AtLeast(ms, i) == ms && AtLeast(ms, i + 1) == ms
  {
    HitsNone(ms, i);
    AtLeastAll(ms, i);
    AtLeastAll(ms, i + 1);
  }

  lemma {:induction false} AllBelow(ms: seq<Match>, i: nat)
    requires forall k :: 0 <= k < |ms| ==> ms[k].fromIndex < i
    ensures AtLeast(ms, i) == []
  {
    if |ms| > 0 {
      assert forall k :: 0 <= k < |ms[1..]| ==> ms[1..][k] == ms[k + 1];
      AllBelow(ms[1..], i);
    }
  }

  lemma SortedTail(ms: seq<Match>)
    requires Sorted(ms) && |ms| > 0
    ensures Sorted(ms[1..])
    ensures forall k :: 0 <= k < |ms| ==> ms[0].fromIndex <= ms[k].fromIndex
  {
    var t := ms[1..];
    forall j, k | 0 <= j < k < |t| ensures t[j].fromIndex <= t[k].fromIndex {
      assert t[j] == ms[j + 1] && t[k] == ms[k + 1];
    }
  }

  /** In sorted match rows, those with index `i` come first among those with
      index `i` or more. */
  lemma {:induction false} SplitAt(ms: seq<Match>, i: nat)
    requires Sorted(ms)
    ensures AtLeast(ms, i) == Hits(ms, i) + AtLeast(ms, i + 1)
  {
    if |ms| > 0 {
      var t := ms[1..];
      SortedTail(ms);
      if ms[0].fromIndex > i {
        AllAbove(ms, i);
      } else {
        SplitAt(t, i);
        var x := ms[0];
        assert AtLeast(ms, i) == (if x.fromIndex >= i then [x] else []) + AtLeast(t, i);
        assert Hits(ms, i) == (if x.fromIndex == i then [x] else []) + Hits(t, i);
        assert AtLeast(ms, i + 1) == AtLeast(t, i + 1);
      }
    }
  }

  lemma {:induction false} HitsHas(ms: seq<Match>, i: nat, k: nat)
    requires k < |ms| && ms[k].fromIndex == i
    ensures |Hits(ms, i)| > 0
  {
    if k > 0 {
      assert ms[1..][k - 1] == ms[k];
      HitsHas(ms[1..], i, k - 1);
    }
  }

  lemma LiftAppend<L>(left: seq<L>, a: seq<Match>, b: seq<Match>)
    requires forall k :: 0 <= k < |a| ==> a[k].fromIndex < |left|
    requires forall k :: 0 <= k < |b| ==> b[k].fromIndex < |left|
    ensures forall k :: 0 <= k < |a + b| ==> (a + b)[k].fromIndex < |left|
    ensures Lift(left, a + b) == Lift(left, a) + Lift(left, b)
  {
    assert forall k :: 0 <= k < |a + b| ==> (a + b)[k] == (if k < |a| then a[k] else b[k - |a|]);
  }

  lemma {:induction false} AtLeastBelow(ms: seq<Match>, i: nat, n: nat)
    requires forall k :: 0 <= k < |ms| ==> ms[k].fromIndex < n
    ensures forall k :: 0 <= k < |AtLeast(ms, i)| ==> AtLeast(ms, i)[k].fromIndex < n
  {
    if |ms| > 0 {
      assert forall k :: 0 <= k < |ms[1..]| ==> ms[1..][k] == ms[k + 1];
      AtLeastBelow(ms[1..], i, n);
    }
  }

  lemma AttachIsLift<L>(left: seq<L>, i: nat, h: seq<Match>)
    requires i < |left| && |h| > 0
    requires forall k :: 0 <= k < |h| ==> h[k].fromIndex == i
    ensures Attach(left[i], i, h) == Lift(left, h)
  {
  }

  /** One left row more: its matches come before those of the rows after it. */
  lemma LeftJoinStep<L>(left: seq<L>, ms: seq<Match>, i: nat, j: nat)
    requires Sorted(ms) && i < |left| && j == i + 1
    requires forall k :: 0 <= k < |ms| ==> ms[k].fromIndex < |left|
    requires |Hits(ms, i)| > 0
    requires forall k :: 0 <= k < |AtLeast(ms, i)| ==> AtLeast(ms, i)[k].fromIndex < |left|
    requires forall k :: 0 <= k < |AtLeast(ms, j)| ==> AtLeast(ms, j)[k].fromIndex < |left|
    requires LeftJoin(left, ms, j) == Lift(left, AtLeast(ms, j))
    ensures LeftJoin(left, ms, i) == Lift(left, AtLeast(ms, i))
  {
    var h := Hits(ms, i);
    var rest := AtLeast(ms, i + 1);
    SplitAt(ms, i);
    AttachIsLift(left, i, h);
    LiftAppend(left, h, rest);
    calc {
      LeftJoin(left, ms, i);
      Attach(left[i], i, h) + LeftJoin(left, ms, i + 1);
      Lift(left, h) + Lift(left, rest);
      Lift(left, h + rest);
    }
  }

  /** When every left row from `i` on has a match, `left.join` gives exactly
      the match rows with index `i` or more, each with its left row. */
  lemma {:induction false} LeftJoinIsLift<L>(left: seq<L>, ms: seq<Match>, i: nat)
    requires Sorted(ms) && i <= |left|
    requires forall k :: 0 <= k < |ms| ==> ms[k].fromIndex < |left|
    requires forall f :: i <= f < |left| ==> |Hits(ms, f)| > 0
    ensures forall k :: 0 <= k < |AtLeast(ms, i)| ==> AtLeast(ms, i)[k].fromIndex < |left|
    ensures LeftJoin(left, ms, i) == Lift(left, AtLeast(ms, i))
    decreases |left| - i
  {
    AtLeastBelow(ms, i, |left|);
    if i == |left| {
      AllBelow(ms, i);
    } else {
      LeftJoinIsLift(left, ms, i + 1);
      LeftJoinStep(left, ms, i, i + 1);
    }
  }

  lemma {:induction false} MergeRowPast<L, R>(row: JoinRow<L>, right: seq<R>, p: nat)
    requires row.Matched? && row.m.toIndex < p
    ensures MergeRow(row, right, p) == []
    decreases |right| - p
  {
    if p < |right| {
      MergeRowPast(row, right, p + 1);
    }
  }

  /** A row with match columns joins exactly the right row at its `To Index`. */
  lemma {:induction false} MergeRowOne<L, R>(row: JoinRow<L>, right: seq<R>, p: nat)
    requires row.Matched? && p <= row.m.toIndex < |right|
    ensures MergeRow(row, right, p) == [Combine(row.left, row.fromIndex, row.m, right[row.m.toIndex])]
    decreases |right| - p
  {
    if p == row.m.toIndex {
      MergeRowPast(row, right, p + 1);
    } else {
      MergeRowOne(row, right, p + 1);
    }
  }

  lemma {:induction false} MergeLift<L, R>(left: seq<L>, right: seq<R>, ms: seq<Match>)
    requires InRange(ms, |left|, |right|)
    ensures Merge(Lift(left, ms), right) == FanOut(left, right, ms)
  {
    if |ms| > 0 {
      var t := ms[1..];
      assert forall k :: 0 <= k < |t| ==> t[k] == ms[k + 1];
      MergeLift(left, right, t);
      var rows := Lift(left, ms);
      assert rows[1..] == Lift(left, t);
      MergeRowOne(rows[0], right, 0);
      assert FanOut(left, right, ms) == [FanOut(left, right, ms)[0]] + FanOut(left, right, t);
    }
  }

  /** The rows `tfidf_match` returns for the key columns. */
  function KeyMatches<L, R>(left: seq<L>, right: seq<R>, leftOn: L -> string, rightOn: R -> string,
                            sim: seq<seq<real>>): Result<seq<Match>>
    requires IsMatrix(sim, |left|, |right|)
  {
    Tfidf(Column(left, leftOn), Column(right, rightOn), sim)
  }

  /** `join_on_tfidf` returns one joined row per match row, no more and no
      fewer: the left join finds a match for every left row, and every
      `To Index` is a position of `right`, so the inner merge drops nothing. */
  lemma JoinFanOut<L, R>(left: seq<L>, right: seq<R>, leftOn: L -> string, rightOn: R -> string,
                                 sim: seq<seq<real>>)
    requires IsMatrix(sim, |left|, |right|)
    requires KeyMatches(left, right, leftOn, rightOn, sim).Ok?
    ensures var ms := KeyMatches(left, right, leftOn, rightOn, sim).value;
      && InRange(ms, |left|, |right|)
      && JoinOnTfidf(left, right, leftOn, rightOn, sim).value == multiset(FanOut(left, right, ms))
  {
    var from := Column(left, leftOn);
    var to := Column(right, rightOn);
    var ms := KeyMatches(left, right, leftOn, rightOn, sim).value;
    MatchRows(from, to, sim);
    assert Sorted(ms) by {
      forall j, k | 0 <= j < k < |ms| ensures ms[j].fromIndex <= ms[k].fromIndex {
        assert Before(ms[j], ms[k]);
      }
    }
    assert InRange(ms, |left|, |right|) by {
      forall k | 0 <= k < |ms| ensures ms[k].fromIndex < |left| && ms[k].toIndex < |right| {
        assert RowOf(from, to, sim, ms[k]);
      }
    }
    forall f | 0 <= f < |left| ensures |Hits(ms, f)| > 0 {
      MatchEveryRow(from, to, sim, f);
      var k :| 0 <= k < |ms| && ms[k].fromIndex == f;
      HitsHas(ms, f, k);
    }
    LeftJoinIsLift(left, ms, 0);
    AtLeastAll(ms, 0);
    MergeLift(left, right, ms);
  }

  // ---------------------------------------------------------------------
  // What the joined rows are

  /** There are exactly as many joined rows as match rows. */
  lemma JoinSize<L, R>(left: seq<L>, right: seq<R>, leftOn: L -> string, rightOn: R -> string,
                               sim: seq<seq<real>>)
    requires IsMatrix(sim, |left|, |right|)
    requires KeyMatches(left, right, leftOn, rightOn, sim).Ok?
    ensures |JoinOnTfidf(left, right, leftOn, rightOn, sim).value| == |KeyMatches(left, right, leftOn, rightOn, sim).value|
  {
    JoinFanOut(left, right, leftOn, rightOn, sim);
  }

  /** Each joined row puts left row `i` (its `From Index`) beside the right
      row at its `To Index`, with the key strings of both. */
  lemma JoinRows<L, R>(left: seq<L>, right: seq<R>, leftOn: L -> string, rightOn: R -> string,
                               sim: seq<seq<real>>, x: Joined<L, R>)
    requires IsMatrix(sim, |left|, |right|)
    requires KeyMatches(left, right, leftOn, rightOn, sim).Ok?
    requires x in JoinOnTfidf(left, right, leftOn, rightOn, sim).value
    ensures x.fromIndex < |left| && x.left == left[x.fromIndex] && x.from == leftOn(x.left)
    ensures x.toIndex < |right| && x.right == right[x.toIndex] && x.to == rightOn(x.right)
    ensures x.score == RowMax(sim[x.fromIndex])
  {
    var from := Column(left, leftOn);
    var to := Column(right, rightOn);
    var ms := KeyMatches(left, right, leftOn, rightOn, sim).value;
    JoinFanOut(left, right, leftOn, rightOn, sim);
    var fan := FanOut(left, right, ms);
    assert x in fan;
    var k :| 0 <= k < |fan| && fan[k] == x;
    MatchRows(from, to, sim);
    assert RowOf(from, to, sim, ms[k]);
  }

  /** A row of score 0 is joined with right row 0: its From string matched
      nothing, and `get_max_indices` gave it `To Index` 0. */
  lemma JoinZeroScore<L, R>(left: seq<L>, right: seq<R>, leftOn: L -> string, rightOn: R -> string,
                            sim: seq<seq<real>>, x: Joined<L, R>)
    requires IsMatrix(sim, |left|, |right|)
    requires KeyMatches(left, right, leftOn, rightOn, sim).Ok?
    requires x in JoinOnTfidf(left, right, leftOn, rightOn, sim).value
    requires x.score == 0.0
    ensures x.toIndex == 0 && x.right == right[0]
  {
    var from := Column(left, leftOn);
    var to := Column(right, rightOn);
    var ms := KeyMatches(left, right, leftOn, rightOn, sim).value;
    JoinFanOut(left, right, leftOn, rightOn, sim);
    var fan := FanOut(left, right, ms);
    assert x in fan;
    var k :| 0 <= k < |fan| && fan[k] == x;
    MatchRows(from, to, sim);
    assert RowOf(from, to, sim, ms[k]);
    MatchZeroRow(from, to, sim, ms[k].fromIndex);
    assert x.toIndex == ms[k].toIndex == 0;
  }

  /** Every left row is in the result, at least once. */
  lemma JoinKeepsLeft<L, R>(left: seq<L>, right: seq<R>, leftOn: L -> string, rightOn: R -> string,
                                    sim: seq<seq<real>>, i: nat)
    requires IsMatrix(sim, |left|, |right|)
    requires KeyMatches(left, right, leftOn, rightOn, sim).Ok? && i < |left|
    ensures exists x :: x in JoinOnTfidf(left, right, leftOn, rightOn, sim).value && x.fromIndex == i && x.left == left[i]
  {
    var from := Column(left, leftOn);
    var to := Column(right, rightOn);
    var ms := KeyMatches(left, right, leftOn, rightOn, sim).value;
    JoinFanOut(left, right, leftOn, rightOn, sim);
    MatchEveryRow(from, to, sim, i);
    var k :| 0 <= k < |ms| && ms[k].fromIndex == i;
    var fan := FanOut(left, right, ms);
    assert fan[k] in multiset(fan);
  }
}
