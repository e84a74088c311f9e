/** The selection half of `tfidf_match`: given the `|From| x |To|` cosine
    similarity matrix, each From string is matched with every To string of
    highest similarity, one row per match. */
module TfidfMatch {
  import Ngrams

  /** One row of the DataFrame `tfidf_match` returns: the From index (its
      position, for a default index), the From string, `Score`, `To Index`
      and `To`. */
  datatype Match = Match(fromIndex: nat, from: string, score: real, toIndex: nat, to: string)

  /** Why the library calls inside `tfidf_match` raise `ValueError`. */
  datatype Failure =
    | EmptyVocabulary  // no string of From + To has a single n-gram to fit on
    | EmptySample      // From or To is empty: `transform` needs at least one sample on each side

  datatype Result<T> = Ok(value: T) | Err(error: Failure)

  /** `sim` has `rows` rows of `cols` entries each. */
  predicate IsMatrix(sim: seq<seq<real>>, rows: nat, cols: nat) {
    |sim| == rows && forall i :: 0 <= i < |sim| ==> |sim[i]| == cols
  }

  /** `row.max()`: the largest entry of a non-empty row. */
  function RowMax(row: seq<real>): (m: real)
    requires |row| > 0
    ensures exists j :: 0 <= j < |row| && row[j] == m
    ensures forall j :: 0 <= j < |row| ==> row[j] <= m
  {
    if |row| == 1 then row[0]
    else
      var rest := RowMax(row[1..]);
      assert forall j :: 1 <= j < |row| ==> row[j] == row[1..][j - 1];
      if row[0] >= rest then row[0] else rest
  }

  predicate Increasing(xs: seq<nat>) {
    forall j, k :: 0 <= j < k < |xs| ==> xs[j] < xs[k]
  }

  /** `np.flatnonzero(row == m)` from column `from` on: the columns holding
      `m`, ascending. */
  function TiedColumns(row: seq<real>, m: real, from: nat): (r: seq<nat>)
    requires from <= |row|
    ensures forall k :: 0 <= k < |r| ==> from <= r[k] < |row| && row[r[k]] == m
    ensures forall j :: from <= j < |row| && row[j] == m ==> j in r
    ensures Increasing(r)
    decreases |row| - from
  {
    if from == |row| then []
    else if row[from] == m then [from] + TiedColumns(row, m, from + 1)
    else TiedColumns(row, m, from + 1)
  }

  /** `get_max_indices` (lines 48-53): the columns that reach the row's
      maximum, or the single column 0 when that maximum is 0. */
  function MaxIndices(row: seq<real>): (r: seq<nat>)
    requires |row| > 0
    ensures |r| > 0 && Increasing(r)
    ensures forall k :: 0 <= k < |r| ==> r[k] < |row|
    ensures RowMax(row) == 0.0 ==> r == [0]
    ensures RowMax(row) != 0.0 ==> forall j :: 0 <= j < |row| ==> (j in r <==> row[j] == RowMax(row))
  {
    var m := RowMax(row);
    if m == 0.0 then [0]
    else
      var r := TiedColumns(row, m, 0);
      var j :| 0 <= j < |row| && row[j] == m;
      assert j in r;
      r
  }

  /** A row as line 55-58 build it: its From string, the row maximum as
      `Score`, and the `To` string at position `To Index`. */
  predicate RowOf(from: seq<string>, to: seq<string>, sim: seq<seq<real>>, m: Match)
    requires IsMatrix(sim, |from|, |to|)
  {
    && m.fromIndex < |from|
    && m.toIndex < |to|
    && m.from == from[m.fromIndex]
    && m.score == RowMax(sim[m.fromIndex])
    && m.to == to[m.toIndex]
  }

  /** Ordered by From index, then by `To Index`. */
  predicate Before(a: Match, b: Match) {
    a.fromIndex < b.fromIndex || (a.fromIndex == b.fromIndex && a.toIndex < b.toIndex)
  }

  predicate Ascending(ms: seq<Match>) {
    forall j, k :: 0 <= j < k < |ms| ==> Before(ms[j], ms[k])
  }

  /** The rows `explode` (line 57) makes of From row `i`, one per column of
      `MaxIndices`, each with its `To` string looked up by position (line 58). */
  function RowMatches(from: seq<string>, to: seq<string>, sim: seq<seq<real>>, i: nat): (r: seq<Match>)
    requires IsMatrix(sim, |from|, |to|) && |to| > 0 && i < |from|
    ensures |r| == |MaxIndices(sim[i])|
    ensures forall k :: 0 <= k < |r| ==> r[k].fromIndex == i && r[k].toIndex == MaxIndices(sim[i])[k]
    ensures forall k :: 0 <= k < |r| ==> RowOf(from, to, sim, r[k])
    ensures Ascending(r)
  {
    var cols := MaxIndices(sim[i]);
    seq(|cols|, k requires 0 <= k < |cols| => Match(i, from[i], RowMax(sim[i]), cols[k], to[cols[k]]))
  }

  /** The groups of rows, From row by From row. */
  function Groups(from: seq<string>, to: seq<string>, sim: seq<seq<real>>): (gs: seq<seq<Match>>)
    requires IsMatrix(sim, |from|, |to|) && |to| > 0
    ensures |gs| == |from|
    ensures forall i :: 0 <= i < |from| ==> gs[i] == RowMatches(from, to, sim, i)
  {
    seq(|from|, i requires 0 <= i < |from| => RowMatches(from, to, sim, i))
  }

  /** `explode` (line 57): the groups laid end to end in From row order. */
  function Flatten(gs: seq<seq<Match>>): seq<Match> {
    if |gs| == 0 then [] else gs[0] + Flatten(gs[1..])
  }

  /** The exploded rows of all From rows. */
  function Explode(from: seq<string>, to: seq<string>, sim: seq<seq<real>>): seq<Match>
    requires IsMatrix(sim, |from|, |to|) && |to| > 0
  {
    Flatten(Groups(from, to, sim))
  }

  /** The fit at line 35 finds no n-gram (of the default analyzer, lengths 3
      to 3) in any of the strings. */
  predicate NoVocabulary(docs: seq<string>) {
    forall k :: 0 <= k < |docs| ==> Ngrams.NgramsUpTo(docs[k], 3, 3) == []
  }

  /** `tfidf_match` (lines 29-60) for the similarity matrix `sim` that lines
      35-46 compute. */
  function Tfidf(from: seq<string>, to: seq<string>, sim: seq<seq<real>>): (r: Result<seq<Match>>)
    requires IsMatrix(sim, |from|, |to|)
    ensures r == Err(EmptyVocabulary) <==> NoVocabulary(from + to)
    ensures r == Err(EmptySample) <==> !NoVocabulary(from + to) && (|from| == 0 || |to| == 0)
    ensures r.Ok? <==> !NoVocabulary(from + to) && |from| > 0 && |to| > 0
  {
    if NoVocabulary(from + to) then Err(EmptyVocabulary)
    else if |from| == 0 || |to| == 0 then Err(EmptySample)
    else Ok(Explode(from, to, sim))
  }

  // ---------------------------------------------------------------------
  // Laying groups end to end

  lemma {:induction false} FlattenMember(gs: seq<seq<Match>>, x: Match)
    ensures x in Flatten(gs) <==> exists i :: 0 <= i < |gs| && x in gs[i]
  {
    if |gs| > 0 {
      FlattenMember(gs[1..], x);
      if exists i :: 0 <= i < |gs| && x in gs[i] {
        var i :| 0 <= i < |gs| && x in gs[i];
        if i > 0 {
          assert gs[1..][i - 1] == gs[i];
        }
      }
      if exists i :: 0 <= i < |gs[1..]| && x in gs[1..][i] {
        var i :| 0 <= i < |gs[1..]| && x in gs[1..][i];
        assert gs[1..][i] == gs[i + 1];
      }
    }
  }

  function TotalLength(gs: seq<seq<Match>>): nat {
    if |gs| == 0 then 0 else |gs[0]| + TotalLength(gs[1..])
  }

  lemma {:induction false} FlattenLength(gs: seq<seq<Match>>)
    ensures |Flatten(gs)| == TotalLength(gs)
  {
    if |gs| > 0 {
      FlattenLength(gs[1..]);
    }
  }

  /** Group `i` holds rows of From row `base + i` only. */
  predicate Keyed(gs: seq<seq<Match>>, base: nat) {
    forall i, k :: 0 <= i < |gs| && 0 <= k < |gs[i]| ==> gs[i][k].fromIndex == base + i
  }

  lemma {:induction false} FlattenAscending(gs: seq<seq<Match>>, base: nat)
    requires Keyed(gs, base)
    requires forall i :: 0 <= i < |gs| ==> Ascending(gs[i])
    ensures Ascending(Flatten(gs))
    ensures forall k :: 0 <= k < |Flatten(gs)| ==> base <= Flatten(gs)[k].fromIndex < base + |gs|
  {
    if |gs| > 0 {
      var t := gs[1..];
      assert Keyed(t, base + 1) by {
        forall i, k | 0 <= i < |t| && 0 <= k < |t[i]| ensures t[i][k].fromIndex == base + 1 + i {
          assert t[i] == gs[i + 1];
        }
      }
      assert forall i :: 0 <= i < |t| ==> Ascending(t[i]) by {
        forall i | 0 <= i < |t| ensures Ascending(t[i]) {
          assert t[i] == gs[i + 1];
        }
      }
      FlattenAscending(t, base + 1);
      var a := gs[0];
      var b := Flatten(t);
      var r := a + b;
      assert forall k :: 0 <= k < |a| ==> a[k].fromIndex == base;
      forall j, k | 0 <= j < k < |r| ensures Before(r[j], r[k]) {
        if k < |a| {
          assert r[j] == a[j] && r[k] == a[k];
        } else if j < |a| {
          assert r[j] == a[j] && r[k] == b[k - |a|];
        } else {
          assert r[j] == b[j - |a|] && r[k] == b[k - |a|];
        }
      }
      forall k | 0 <= k < |r| ensures base <= r[k].fromIndex < base + |gs| {
        if k < |a| { assert r[k] == a[k]; } else { assert r[k] == b[k - |a|]; }
      }
    }
  }

  /** The groups of `Groups` are keyed by their From row and ascending. */
  lemma GroupsKeyed(from: seq<string>, to: seq<string>, sim: seq<seq<real>>)
    requires IsMatrix(sim, |from|, |to|) && |to| > 0
    ensures Keyed(Groups(from, to, sim), 0)
    ensures forall i :: 0 <= i < |from| ==> Ascending(Groups(from, to, sim)[i])
  {
  }

  /** The number of rows of From rows `i` onwards: the sum of their tie-set sizes. */
  function TieCount(sim: seq<seq<real>>, i: nat): nat
    requires i <= |sim| && forall k :: 0 <= k < |sim| ==> |sim[k]| > 0
    decreases |sim| - i
  {
    if i == |sim| then 0 else |MaxIndices(sim[i])| + TieCount(sim, i + 1)
  }

  lemma {:induction false} GroupsLength(from: seq<string>, to: seq<string>, sim: seq<seq<real>>, i: nat)
    requires IsMatrix(sim, |from|, |to|) && |to| > 0 && i <= |from|
    ensures TotalLength(Groups(from, to, sim)[i..]) == TieCount(sim, i)
    decreases |from| - i
  {
    if i < |from| {
      var gs := Groups(from, to, sim);
      assert gs[i..][0] == gs[i];
      assert gs[i..][1..] == gs[i + 1..];
      GroupsLength(from, to, sim, i + 1);
    }
  }

  // ---------------------------------------------------------------------
  // What `tfidf_match` returns

  /** Every row carries its From string, the maximum of its similarity row as
      `Score` and the To string at `To Index`; the rows come grouped by From
      row in input order, and within a group by `To Index`, each once. */
  lemma MatchRows(from: seq<string>, to: seq<string>, sim: seq<seq<real>>)
    requires IsMatrix(sim, |from|, |to|)
    requires Tfidf(from, to, sim).Ok?
    ensures var ms := Tfidf(from, to, sim).value;
      && Ascending(ms)
      && forall k :: 0 <= k < |ms| ==> RowOf(from, to, sim, ms[k])
  {
    var gs := Groups(from, to, sim);
    var ms := Flatten(gs);
    GroupsKeyed(from, to, sim);
    FlattenAscending(gs, 0);
    forall k | 0 <= k < |ms| ensures RowOf(from, to, sim, ms[k]) {
      FlattenMember(gs, ms[k]);
      var i :| 0 <= i < |gs| && ms[k] in gs[i];
      var k' :| 0 <= k' < |gs[i]| && gs[i][k'] == ms[k];
    }
  }

  /** From row `f` is matched with To row `j` exactly when `j` is one of its
      `MaxIndices`. */
  lemma MatchHas(from: seq<string>, to: seq<string>, sim: seq<seq<real>>, f: nat, j: nat)
    requires IsMatrix(sim, |from|, |to|)
    requires Tfidf(from, to, sim).Ok? && f < |from|
    ensures var ms := Tfidf(from, to, sim).value;
      (exists k :: 0 <= k < |ms| && ms[k].fromIndex == f && ms[k].toIndex == j) <==> j in MaxIndices(sim[f])
  {
    var gs := Groups(from, to, sim);
    var ms := Flatten(gs);
    var cols := MaxIndices(sim[f]);
    if exists k :: 0 <= k < |ms| && ms[k].fromIndex == f && ms[k].toIndex == j {
      var k :| 0 <= k < |ms| && ms[k].fromIndex == f && ms[k].toIndex == j;
      FlattenMember(gs, ms[k]);
      var i :| 0 <= i < |gs| && ms[k] in gs[i];
      var k' :| 0 <= k' < |gs[i]| && gs[i][k'] == ms[k];
      assert i == f;
      assert cols[k'] == j;
    }
    if j in cols {
      var k' :| 0 <= k' < |cols| && cols[k'] == j;
      var x := gs[f][k'];
      FlattenMember(gs, x);
      var k :| 0 <= k < |ms| && ms[k] == x;
    }
  }

  /** When row `f` has a non-zero maximum, its `To Index` values are exactly
      the columns holding that maximum: no tied column is dropped. */
  lemma MatchTies(from: seq<string>, to: seq<string>, sim: seq<seq<real>>, f: nat, j: nat)
    requires IsMatrix(sim, |from|, |to|)
    requires Tfidf(from, to, sim).Ok? && f < |from| && j < |to|
    requires RowMax(sim[f]) != 0.0
    ensures var ms := Tfidf(from, to, sim).value;
      (exists k :: 0 <= k < |ms| && ms[k].fromIndex == f && ms[k].toIndex == j) <==> sim[f][j] == RowMax(sim[f])
  {
    MatchHas(from, to, sim, f, j);
  }

  /** A From row whose maximum is 0 is kept: it gives exactly one row, with
      `To Index` 0 and `Score` 0. */
  lemma MatchZeroRow(from: seq<string>, to: seq<string>, sim: seq<seq<real>>, f: nat)
    requires IsMatrix(sim, |from|, |to|)
    requires Tfidf(from, to, sim).Ok? && f < |from|
    requires RowMax(sim[f]) == 0.0
    ensures var ms := Tfidf(from, to, sim).value;
      && (exists k :: 0 <= k < |ms| && ms[k].fromIndex == f && ms[k].toIndex == 0 && ms[k].score == 0.0)
      && (forall k :: 0 <= k < |ms| && ms[k].fromIndex == f ==> ms[k].toIndex == 0)
      && (forall j, k :: 0 <= j < |ms| && 0 <= k < |ms| && ms[j].fromIndex == f && ms[k].fromIndex == f ==> j == k)
  {
    var ms := Tfidf(from, to, sim).value;
    MatchRows(from, to, sim);
    MatchHas(from, to, sim, f, 0);
    forall k | 0 <= k < |ms| && ms[k].fromIndex == f ensures ms[k].toIndex == 0 {
      MatchHas(from, to, sim, f, ms[k].toIndex);
    }
    forall j, k | 0 <= j < |ms| && 0 <= k < |ms| && ms[j].fromIndex == f && ms[k].fromIndex == f
      ensures j == k
    {
      MatchHas(from, to, sim, f, ms[j].toIndex);
      MatchHas(from, to, sim, f, ms[k].toIndex);
      assert !Before(ms[j], ms[k]) && !Before(ms[k], ms[j]);
    }
  }

  /** Every From row is matched at least once. */
  lemma MatchEveryRow(from: seq<string>, to: seq<string>, sim: seq<seq<real>>, f: nat)
    requires IsMatrix(sim, |from|, |to|)
    requires Tfidf(from, to, sim).Ok? && f < |from|
    ensures var ms := Tfidf(from, to, sim).value;
      exists k :: 0 <= k < |ms| && ms[k].fromIndex == f
  {
    var cols := MaxIndices(sim[f]);
    MatchHas(from, to, sim, f, cols[0]);
  }

  /** There are as many rows as the tie sets have members together. */
  lemma MatchLength(from: seq<string>, to: seq<string>, sim: seq<seq<real>>)
    requires IsMatrix(sim, |from|, |to|)
    requires Tfidf(from, to, sim).Ok?
    ensures |Tfidf(from, to, sim).value| == TieCount(sim, 0)
  {
    var gs := Groups(from, to, sim);
    FlattenLength(gs);
    GroupsLength(from, to, sim, 0);
    assert gs[0..] == gs;
  }
}
