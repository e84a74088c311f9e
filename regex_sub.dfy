/** `re.sub(pattern, '', s)` for a pattern whose attempt at each position of
    `s` does not depend on what the scan has already done (its lookarounds
    read `s` itself): `m(q)` is the length of the match the pattern makes when
    tried at position `q`, and 0 when it fails there. The pattern is taken
    never to match the empty string. */
module RegexSub {
  import opened Runs

  /** No match runs past the end of `s`. */
  ghost predicate Fits(s: string, m: nat -> nat) {
    forall q: nat :: q <= |s| ==> q + m(q) <= |s|
  }

  /** The scan of `re.sub` with an empty replacement, from position `p` on:
      where the pattern matches, the matched text is dropped and the scan
      resumes after it; where it fails, one character is copied. */
  function Erase(s: string, m: nat -> nat, p: nat): string
    requires p <= |s| && Fits(s, m)
    decreases |s| - p
  {
    if p == |s| then []
    else if m(p) == 0 then [s[p]] + Erase(s, m, p + 1)
    else Erase(s, m, p + m(p))
  }

  /** Where the pattern fails at every position from `p` to `q`, those
      characters are copied. */
  lemma {:induction false} EraseCopies(s: string, m: nat -> nat, p: nat, q: nat)
    requires Fits(s, m) && p <= q <= |s|
    requires forall j: nat :: p <= j < q ==> m(j) == 0
    ensures Erase(s, m, p) == s[p..q] + Erase(s, m, q)
    decreases q - p
  {
    if p < q {
      EraseCopies(s, m, p + 1, q);
      var tail := Erase(s, m, q);
      assert s[p..q] == [s[p]] + s[p + 1..q];
      assert [s[p]] + (s[p + 1..q] + tail) == ([s[p]] + s[p + 1..q]) + tail;
    } else {
      assert s[p..q] == [];
    }
  }

  /** A pattern that fails everywhere changes nothing. */
  lemma EraseNothing(s: string, m: nat -> nat)
    requires forall q: nat :: q <= |s| ==> m(q) == 0
    ensures Fits(s, m) && Erase(s, m, 0) == s
  {
    EraseCopies(s, m, 0, |s|);
  }

  /** `q` starts a maximal run of `wc`-characters of `s`. */
  predicate RunStart(s: string, q: nat, wc: char -> bool)
    requires q < |s|
  {
    wc(s[q]) && (q == 0 || !wc(s[q - 1]))
  }

  /** What `\bw1\b|\bw2\b|...` does at position `q` when `\b` is taken
      relative to the class `wc` and the words are runs of `wc`: it matches at
      the start of a maximal run that is listed, the whole run, and fails
      everywhere else. */
  function RunMatch(s: string, words: seq<string>, wc: char -> bool, q: nat): (n: nat)
    ensures q + n <= |s| || n == 0
    ensures n > 0 ==> q < |s| && RunStart(s, q, wc) && n == Span(s[q..], wc) && s[q..q + n] in words
  {
    if q < |s| && RunStart(s, q, wc) then
      var k := Span(s[q..], wc);
      if s[q..q + k] in words then k else 0
    else 0
  }

  /** Reference definition: `s` with every maximal run of `wc`-characters that
      is listed in `words` removed. */
  function DropRuns(s: string, words: seq<string>, wc: char -> bool): (r: string)
    ensures |r| <= |s|
    decreases |s|
  {
    if |s| == 0 then []
    else if !wc(s[0]) then [s[0]] + DropRuns(s[1..], words, wc)
    else
      var k := Span(s, wc);
      (if s[..k] in words then [] else s[..k]) + DropRuns(s[k..], words, wc)
  }

  /** The runs of `ts` that are not listed in `words`, in order. */
  function Unlisted(ts: seq<string>, words: seq<string>): (r: seq<string>)
    ensures forall k :: 0 <= k < |r| ==> r[k] !in words && r[k] in ts
  {
    if |ts| == 0 then []
    else (if ts[0] in words then [] else [ts[0]]) + Unlisted(ts[1..], words)
  }

  lemma RunMatchFits(s: string, words: seq<string>, wc: char -> bool, m: nat -> nat)
    requires forall q: nat {:trigger RunMatch(s, words, wc, q)} :: q <= |s| ==> m(q) == RunMatch(s, words, wc, q)
    ensures Fits(s, m)
  {
    forall q: nat | q <= |s| ensures q + m(q) <= |s| {
      assert m(q) == RunMatch(s, words, wc, q);
    }
  }

  /** One step of the scan where the pattern fails. */
  lemma EraseCopy(s: string, m: nat -> nat, p: nat)
    requires Fits(s, m) && p < |s| && m(p) == 0
    ensures Erase(s, m, p) == [s[p]] + Erase(s, m, p + 1)
  {
  }

  /** One step of the scan where the pattern matches. */
  lemma EraseSkip(s: string, m: nat -> nat, p: nat)
    requires Fits(s, m) && p < |s| && m(p) > 0
    ensures p + m(p) <= |s| && Erase(s, m, p) == Erase(s, m, p + m(p))
  {
  }

  /** The pattern fails all along an unlisted maximal run. */
  lemma FailsOnUnlistedRun(s: string, words: seq<string>, wc: char -> bool, m: nat -> nat, p: nat, k: nat)
    requires forall q: nat {:trigger RunMatch(s, words, wc, q)} :: q <= |s| ==> m(q) == RunMatch(s, words, wc, q)
    requires p < |s| && RunStart(s, p, wc)
    requires k == Span(s[p..], wc) && s[p..p + k] !in words
    ensures p + k <= |s|
    ensures forall j: nat :: p <= j < p + k ==> m(j) == 0
  {
    assert s[p..][..k] == s[p..p + k];
    forall j: nat | p <= j < p + k ensures m(j) == 0 {
      assert RunMatch(s, words, wc, j) == 0 by {
        if j > p {
          assert s[p..p + k][j - p] == s[j] && s[p..p + k][j - 1 - p] == s[j - 1];
        }
      }
    }
  }

  /** At the start of a listed maximal run the scan drops the run. */
  lemma EraseListedRun(s: string, words: seq<string>, wc: char -> bool, m: nat -> nat, p: nat, k: nat)
    requires forall q: nat {:trigger RunMatch(s, words, wc, q)} :: q <= |s| ==> m(q) == RunMatch(s, words, wc, q)
    requires Fits(s, m)
    requires p < |s| && RunStart(s, p, wc)
    requires k == Span(s[p..], wc) && s[p..p + k] in words
    ensures Erase(s, m, p) == Erase(s, m, p + k)
  {
    assert RunMatch(s, words, wc, p) == k by {
      assert s[p..][0] == s[p];
    }
    EraseSkip(s, m, p);
  }

  /** At the start of an unlisted maximal run the scan copies the run. */
  lemma EraseUnlistedRun(s: string, words: seq<string>, wc: char -> bool, m: nat -> nat, p: nat, k: nat)
    requires forall q: nat {:trigger RunMatch(s, words, wc, q)} :: q <= |s| ==> m(q) == RunMatch(s, words, wc, q)
    requires Fits(s, m)
    requires p < |s| && RunStart(s, p, wc)
    requires k == Span(s[p..], wc) && s[p..p + k] !in words
    ensures p + k <= |s| && Erase(s, m, p) == s[p..p + k] + Erase(s, m, p + k)
  {
    FailsOnUnlistedRun(s, words, wc, m, p, k);
    EraseCopies(s, m, p, p + k);
  }

  /** A string that starts with a run starts its reference result with that
      run, dropped or kept. */
  lemma DropRunsAtRun(x: string, words: seq<string>, wc: char -> bool)
    requires |x| > 0 && wc(x[0])
    ensures var k := Span(x, wc);
      DropRuns(x, words, wc) == (if x[..k] in words then [] else x[..k]) + DropRuns(x[k..], words, wc)
  {
  }

  /** A position from which the scan and the reference definition agree:
      not strictly inside a run. */
  predicate Resumable(s: string, p: nat, wc: char -> bool)
    requires p <= |s|
  {
    p == 0 || p == |s| || !wc(s[p - 1]) || !wc(s[p])
  }

  /** A character outside the class is copied by both. */
  lemma StepOther(s: string, words: seq<string>, wc: char -> bool, m: nat -> nat, p: nat)
    requires forall q: nat {:trigger RunMatch(s, words, wc, q)} :: q <= |s| ==> m(q) == RunMatch(s, words, wc, q)
    requires Fits(s, m)
    requires p < |s| && !wc(s[p])
    ensures Resumable(s, p + 1, wc)
    ensures Erase(s, m, p) == [s[p]] + Erase(s, m, p + 1)
    ensures DropRuns(s[p..], words, wc) == [s[p]] + DropRuns(s[p + 1..], words, wc)
  {
    assert RunMatch(s, words, wc, p) == 0;
    EraseCopy(s, m, p);
    assert s[p..][1..] == s[p + 1..];
  }

  /** The reference definition on a suffix that starts with a maximal run. */
  lemma DropRunsAt(s: string, words: seq<string>, wc: char -> bool, p: nat, k: nat)
    requires p < |s| && wc(s[p]) && k == Span(s[p..], wc)
    ensures p + k <= |s| && Resumable(s, p + k, wc)
    ensures DropRuns(s[p..], words, wc)
      == (if s[p..p + k] in words then [] else s[p..p + k]) + DropRuns(s[p + k..], words, wc)
  {
    var x := s[p..];
    assert x[0] == s[p];
    DropRunsAtRun(x, words, wc);
    assert x[..k] == s[p..p + k];
    assert x[k..] == s[p + k..];
    assert p + k < |s| ==> s[p + k] == x[k];
  }

  /** A maximal run is dropped by both when it is listed and copied by both
      otherwise. */
  lemma StepRun(s: string, words: seq<string>, wc: char -> bool, m: nat -> nat, p: nat) returns (q: nat, piece: string)
    requires forall q: nat {:trigger RunMatch(s, words, wc, q)} :: q <= |s| ==> m(q) == RunMatch(s, words, wc, q)
    requires Fits(s, m)
    requires p < |s| && wc(s[p]) && Resumable(s, p, wc)
    ensures p < q <= |s| && Resumable(s, q, wc)
    ensures Erase(s, m, p) == piece + Erase(s, m, q)
    ensures DropRuns(s[p..], words, wc) == piece + DropRuns(s[q..], words, wc)
  {
    var k := Span(s[p..], wc);
    assert k > 0 by {
      assert s[p..][0] == s[p];
    }
    DropRunsAt(s, words, wc, p, k);
    q := p + k;
    if s[p..p + k] in words {
      piece := [];
      EraseListedRun(s, words, wc, m, p, k);
      assert [] + Erase(s, m, q) == Erase(s, m, q);
    } else {
      piece := s[p..p + k];
      EraseUnlistedRun(s, words, wc, m, p, k);
    }
  }

  /** The scan computes the reference definition, from any position that is
      not strictly inside a run. */
  lemma {:induction false} EraseIsDropRuns(s: string, words: seq<string>, wc: char -> bool, m: nat -> nat, p: nat)
    requires forall q: nat {:trigger RunMatch(s, words, wc, q)} :: q <= |s| ==> m(q) == RunMatch(s, words, wc, q)
    requires Fits(s, m)
    requires p <= |s| && Resumable(s, p, wc)
    ensures Erase(s, m, p) == DropRuns(s[p..], words, wc)
    decreases |s| - p
  {
    if p < |s| {
      if !wc(s[p]) {
        StepOther(s, words, wc, m, p);
        EraseIsDropRuns(s, words, wc, m, p + 1);
      } else {
        var q, piece := StepRun(s, words, wc, m, p);
        EraseIsDropRuns(s, words, wc, m, q);
      }
    }
  }

  /** A run followed by a character outside the class (or nothing) is the
      first run of the string. */
  lemma RunsOfRunThen(run: string, y: string, wc: char -> bool)
    requires |run| > 0 && All(run, wc)
    requires |y| == 0 || !wc(y[0])
    ensures RunsOf(run + y, wc) == [run] + RunsOf(y, wc)
  {
    SpanOfPrefix(run, y, wc);
    var z := run + y;
    assert z[0] == run[0];
    assert z[..|run|] == run && z[|run|..] == y;
  }

  /** The reference definition keeps every unlisted run, in order, and removes
      every listed one. */
  lemma {:induction false} DropRunsRuns(s: string, words: seq<string>, wc: char -> bool)
    ensures RunsOf(DropRuns(s, words, wc), wc) == Unlisted(RunsOf(s, wc), words)
    decreases |s|
  {
    if |s| == 0 {
    } else if !wc(s[0]) {
      DropRunsRuns(s[1..], words, wc);
      RunsConsNot(s[0], DropRuns(s[1..], words, wc), wc);
    } else {
      var k := Span(s, wc);
      var run := s[..k];
      var rest := s[k..];
      var y := DropRuns(rest, words, wc);
      DropRunsRuns(rest, words, wc);
      var rs := RunsOf(rest, wc);
      assert RunsOf(s, wc) == [run] + rs;
      assert ([run] + rs)[1..] == rs;
      assert Unlisted([run] + rs, words) == (if run in words then [] else [run]) + Unlisted(rs, words);
      if run !in words {
        assert DropRuns(s, words, wc) == run + y;
        RunsOfRunThen(run, y, wc);
      } else {
        assert DropRuns(s, words, wc) == y;
      }
    }
  }

  /** The reference definition keeps every character of a class `q` disjoint
      from `wc`, in order. */
  lemma {:induction false} DropRunsKeeps(s: string, words: seq<string>, wc: char -> bool, q: char -> bool)
    requires forall c :: wc(c) ==> !q(c)
    ensures Keep(DropRuns(s, words, wc), q) == Keep(s, q)
    decreases |s|
  {
    if |s| == 0 {
    } else if !wc(s[0]) {
      DropRunsKeeps(s[1..], words, wc, q);
      KeepHead(s, q);
      KeepHead(DropRuns(s, words, wc), q);
      assert DropRuns(s, words, wc)[1..] == DropRuns(s[1..], words, wc);
    } else {
      var k := Span(s, wc);
      var head := if s[..k] in words then [] else s[..k];
      DropRunsKeeps(s[k..], words, wc, q);
      KeepConcat(head, DropRuns(s[k..], words, wc), q);
      KeepNone(head, q);
      assert s == s[..k] + s[k..];
      KeepConcat(s[..k], s[k..], q);
      KeepNone(s[..k], q);
    }
  }
}
