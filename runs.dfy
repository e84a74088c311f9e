/** Maximal runs of characters that belong to one class. Python's `str.split()`
    yields the runs of non-whitespace characters, and the whole words that a
    `\b...\b` pattern delimits are the runs of word characters. */
module Runs {

  /** Every character of `s` satisfies `p`. */
  predicate All(s: string, p: char -> bool) {
    forall i :: 0 <= i < |s| ==> p(s[i])
  }

  /** No character of `s` satisfies `p`. */
  predicate NoneOf(s: string, p: char -> bool) {
    forall i :: 0 <= i < |s| ==> !p(s[i])
  }

  /** Length of the longest prefix of `s` all of whose characters satisfy `p`. */
  function Span(s: string, p: char -> bool): (k: nat)
    ensures k <= |s|
    ensures All(s[..k], p)
    ensures k < |s| ==> !p(s[k])
  {
    if |s| > 0 && p(s[0]) then
      assert s[1..][..Span(s[1..], p)] == s[..1 + Span(s[1..], p)][1..];
      1 + Span(s[1..], p)
    else 0
  }

  /** Length of the longest suffix of `s` all of whose characters satisfy `p`. */
  function Trailing(s: string, p: char -> bool): (k: nat)
    ensures k <= |s|
    ensures All(s[|s| - k..], p)
    ensures k < |s| ==> !p(s[|s| - 1 - k])
  {
    if |s| > 0 && p(s[|s| - 1]) then
      var t := s[..|s| - 1];
      var k := Trailing(t, p);
      var suffix := s[|s| - (1 + k)..];
      assert All(suffix, p) by {
        forall i | 0 <= i < |suffix| ensures p(suffix[i]) {
          if i < k {
            assert suffix[i] == t[|t| - k..][i];
          }
        }
      }
      1 + k
    else 0
  }

  /** The maximal runs of `p`-characters of `s`, left to right. */
  function RunsOf(s: string, p: char -> bool): (r: seq<string>)
    ensures forall k :: 0 <= k < |r| ==> |r[k]| > 0 && All(r[k], p)
    decreases |s|
  {
    if |s| == 0 then []
    else if !p(s[0]) then RunsOf(s[1..], p)
    else
      var k := Span(s, p);
      [s[..k]] + RunsOf(s[k..], p)
  }

  /** The characters of `s` that satisfy `p`, in order. */
  function Keep(s: string, p: char -> bool): (r: string)
    ensures |r| <= |s|
    ensures All(r, p)
  {
    if |s| == 0 then [] else (if p(s[0]) then [s[0]] else []) + Keep(s[1..], p)
  }

  /** The strings of `ws` run together. */
  function Concat(ws: seq<string>): string {
    if |ws| == 0 then [] else ws[0] + Concat(ws[1..])
  }

  /** The strings of `ws` with `sep` between each two. */
  function JoinWith(ws: seq<string>, sep: char): string {
    if |ws| == 0 then []
    else if |ws| == 1 then ws[0]
    else ws[0] + [sep] + JoinWith(ws[1..], sep)
  }

  lemma {:induction false} KeepConcat(a: string, b: string, p: char -> bool)
    ensures Keep(a + b, p) == Keep(a, p) + Keep(b, p)
    decreases |a|
  {
    if |a| > 0 {
      assert (a + b)[1..] == a[1..] + b;
      KeepConcat(a[1..], b, p);
    } else {
      assert a + b == b;
    }
  }

  lemma {:induction false} KeepAll(a: string, p: char -> bool)
    requires All(a, p)
    ensures Keep(a, p) == a
    decreases |a|
  {
    if |a| > 0 {
      KeepAll(a[1..], p);
    }
  }

  lemma {:induction false} KeepNone(a: string, p: char -> bool)
    requires NoneOf(a, p)
    ensures Keep(a, p) == []
    decreases |a|
  {
    if |a| > 0 {
      KeepNone(a[1..], p);
    }
  }

  /** Running the runs of `s` together gives back exactly the `p`-characters
      of `s`: nothing is lost, nothing is added, the order is kept. */
  lemma {:induction false} ConcatRunsIsKeep(s: string, p: char -> bool)
    ensures Concat(RunsOf(s, p)) == Keep(s, p)
    decreases |s|
  {
    if |s| == 0 {
    } else if !p(s[0]) {
      ConcatRunsIsKeep(s[1..], p);
    } else {
      var k := Span(s, p);
      ConcatRunsIsKeep(s[k..], p);
      assert [s[..k]] + RunsOf(s[k..], p) == RunsOf(s, p);
      assert s == s[..k] + s[k..];
      KeepConcat(s[..k], s[k..], p);
      KeepAll(s[..k], p);
    }
  }

  /** `RunsOf` takes its first step: a leading run, or one character that is not `p`. */
  lemma RunsStep(s: string, p: char -> bool) returns (k: nat)
    requires |s| > 0
    ensures 0 < k <= |s|
    ensures p(s[0]) ==> k == Span(s, p) && RunsOf(s, p) == [s[..k]] + RunsOf(s[k..], p)
    ensures !p(s[0]) ==> k == 1 && RunsOf(s, p) == RunsOf(s[k..], p)
  {
    k := if p(s[0]) then Span(s, p) else 1;
  }

  /** A run does not reach past a character that is not `p`. */
  lemma SpanStops(s: string, q: nat, p: char -> bool)
    requires 0 < q <= |s| && !p(s[q - 1])
    ensures Span(s, p) < q
  {
    var k := Span(s, p);
    assert forall i :: 0 <= i < k ==> s[..k][i] == s[i];
    assert forall i :: 0 <= i < k ==> p(s[i]);
  }

  /** Cut where a run cannot continue, the string's runs end with the runs
      of the part after the cut. */
  lemma {:induction false} RunsFrom(s: string, q: nat, p: char -> bool)
    requires q <= |s| && (q == 0 || !p(s[q - 1]))
    ensures forall t :: t in RunsOf(s[q..], p) ==> t in RunsOf(s, p)
    decreases |s|
  {
    if q == 0 {
      assert s[0..] == s;
    } else {
      var k := RunsStep(s, p);
      if p(s[0]) {
        SpanStops(s, q, p);
      }
      var t := s[k..];
      assert t[q - k..] == s[q..];
      assert q - k > 0 ==> t[q - k - 1] == s[q - 1];
      RunsFrom(t, q - k, p);
    }
  }

  /** The maximal run that starts at `q` is one of the runs. */
  lemma {:induction false} RunStartInRuns(s: string, q: nat, p: char -> bool)
    requires q < |s| && p(s[q]) && (q == 0 || !p(s[q - 1]))
    ensures s[q..q + Span(s[q..], p)] in RunsOf(s, p)
  {
    var x := s[q..];
    assert x[0] == s[q];
    var k := RunsStep(x, p);
    assert x[..k] in RunsOf(x, p);
    assert x[..k] == s[q..q + Span(s[q..], p)];
    RunsFrom(s, q, p);
  }

  /** A prefix of `p`-characters followed by a non-`p` character (or nothing)
      spans exactly that prefix. */
  lemma {:induction false} SpanOfPrefix(a: string, b: string, p: char -> bool)
    requires All(a, p)
    requires |b| == 0 || !p(b[0])
    ensures Span(a + b, p) == |a|
    decreases |a|
  {
    if |a| > 0 {
      assert (a + b)[1..] == a[1..] + b;
      SpanOfPrefix(a[1..], b, p);
    } else {
      assert a + b == b;
    }
  }

  /** How a leading `p`-character joins the runs of what follows it. */
  lemma RunsCons(c: char, x: string, p: char -> bool)
    requires p(c)
    ensures |x| > 0 && p(x[0]) ==>
      |RunsOf(x, p)| > 0 && RunsOf([c] + x, p) == [[c] + RunsOf(x, p)[0]] + RunsOf(x, p)[1..]
    ensures !(|x| > 0 && p(x[0])) ==> RunsOf([c] + x, p) == [[c]] + RunsOf(x, p)
  {
    var s := [c] + x;
    assert s[1..] == x;
    var k := Span(x, p);
    assert Span(s, p) == 1 + k;
    assert s[..1 + k] == [c] + x[..k];
    assert s[1 + k..] == x[k..];
  }

  /** A leading non-`p` character contributes no run. */
  lemma RunsConsNot(c: char, x: string, p: char -> bool)
    requires !p(c)
    ensures RunsOf([c] + x, p) == RunsOf(x, p)
  {
    assert ([c] + x)[1..] == x;
  }

  /** Leading non-`p` characters contribute no run. */
  lemma {:induction false} RunsSkip(s: string, k: nat, p: char -> bool)
    requires k <= |s|
    requires NoneOf(s[..k], p)
    ensures RunsOf(s, p) == RunsOf(s[k..], p)
    decreases k
  {
    if k > 0 {
      assert !p(s[0]);
      assert s[1..][..k - 1] == s[..k][1..];
      RunsSkip(s[1..], k - 1, p);
      assert s[1..][k - 1..] == s[k..];
    }
  }

  /** A trailing non-`p` character contributes no run. */
  lemma {:induction false} RunsSnocNot(t: string, c: char, p: char -> bool)
    requires !p(c)
    ensures RunsOf(t + [c], p) == RunsOf(t, p)
    decreases |t|
  {
    if |t| == 0 {
      assert t + [c] == [c];
      RunsConsNot(c, [], p);
    } else {
      var x := t[1..];
      assert t + [c] == [t[0]] + (x + [c]);
      assert t == [t[0]] + x;
      RunsSnocNot(x, c, p);
      if p(t[0]) {
        RunsCons(t[0], x + [c], p);
        RunsCons(t[0], x, p);
        if |x| == 0 {
          assert (x + [c])[0] == c;
        } else {
          assert (x + [c])[0] == x[0];
        }
      } else {
        RunsConsNot(t[0], x + [c], p);
        RunsConsNot(t[0], x, p);
      }
    }
  }

  /** Trailing non-`p` characters contribute no run. */
  lemma {:induction false} RunsDropTail(s: string, k: nat, p: char -> bool)
    requires k <= |s|
    requires NoneOf(s[|s| - k..], p)
    ensures RunsOf(s, p) == RunsOf(s[..|s| - k], p)
    decreases k
  {
    if k > 0 {
      var t := s[..|s| - 1];
      assert s == t + [s[|s| - 1]];
      assert s[|s| - k..][k - 1] == s[|s| - 1];
      assert !p(s[|s| - 1]);
      RunsSnocNot(t, s[|s| - 1], p);
      assert t[|t| - (k - 1)..] == s[|s| - k..][..k - 1];
      assert NoneOf(t[|t| - (k - 1)..], p);
      RunsDropTail(t, k - 1, p);
      assert t[..|t| - (k - 1)] == s[..|s| - k];
      assert RunsOf(s, p) == RunsOf(t, p);
    } else {
      assert s[..|s|] == s;
    }
  }

  /** Joining non-empty runs of `p`-characters with a non-`p` separator and
      taking the runs again gives back the same runs. */
  lemma {:induction false} RunsOfJoinWith(ws: seq<string>, sep: char, p: char -> bool)
    requires !p(sep)
    requires forall k :: 0 <= k < |ws| ==> |ws[k]| > 0 && All(ws[k], p)
    ensures RunsOf(JoinWith(ws, sep), p) == ws
    decreases |ws|
  {
    if |ws| == 0 {
    } else {
      var w := ws[0];
      var rest := if |ws| == 1 then [] else [sep] + JoinWith(ws[1..], sep);
      assert JoinWith(ws, sep) == w + rest;
      SpanOfPrefix(w, rest, p);
      var s := w + rest;
      assert s[..|w|] == w;
      assert s[|w|..] == rest;
      if |ws| > 1 {
        RunsOfJoinWith(ws[1..], sep, p);
        RunsConsNot(sep, JoinWith(ws[1..], sep), p);
      }
      assert RunsOf(s, p) == [w] + RunsOf(rest, p);
    }
  }

  // ---------------------------------------------------------------------
  // Squeezing runs and trimming ends, for any character class

  /** No two adjacent characters of `s` both satisfy `p`. */
  predicate NoAdjacent(s: string, p: char -> bool) {
    forall i :: 0 < i < |s| ==> !(p(s[i - 1]) && p(s[i]))
  }

  /** `s` neither starts nor ends with a `p`-character. */
  predicate TrimmedBy(s: string, p: char -> bool) {
    |s| == 0 || (!p(s[0]) && !p(s[|s| - 1]))
  }

  /** Scanning from the left, every run of two or more `p`-characters is
      replaced by the one character `c`; a lone `p`-character is kept. */
  function Squeeze(s: string, p: char -> bool, c: char): (r: string)
    requires p(c)
    ensures |r| <= |s|
    ensures |s| > 0 ==> |r| > 0 && (p(r[0]) <==> p(s[0]))
    ensures |s| > 0 && !p(s[0]) ==> r[0] == s[0]
    ensures NoAdjacent(r, p)
    ensures forall i :: 0 <= i < |r| ==> r[i] == c || r[i] in s
    decreases |s|
  {
    if |s| == 0 then []
    else
      var k := Span(s, p);
      if k >= 2 then [c] + Squeeze(s[k..], p, c)
      else [s[0]] + Squeeze(s[1..], p, c)
  }

  /** `s` with its leading and trailing `p`-characters removed. */
  function Trim(s: string, p: char -> bool): (r: string)
    ensures TrimmedBy(r, p)
    ensures |r| <= |s|
    ensures TrimmedBy(s, p) ==> r == s
    ensures NoAdjacent(s, p) ==> NoAdjacent(r, p)
    ensures forall i :: 0 <= i < |r| ==> r[i] in s
  {
    var lead := Span(s, p);
    var t := s[lead..];
    var r := t[..|t| - Trailing(t, p)];
    assert |r| > 0 ==> r[0] == t[0];
    assert forall i :: 0 <= i < |r| ==> r[i] == s[lead + i];
    assert TrimmedBy(s, p) ==> lead == 0 && Trailing(t, p) == 0;
    assert TrimmedBy(s, p) ==> t == s && r == t;
    r
  }

  /** `Squeeze` leaves a string without adjacent `p`-characters as it is. */
  lemma {:induction false} SqueezeIdentity(s: string, p: char -> bool, c: char)
    requires p(c)
    requires NoAdjacent(s, p)
    ensures Squeeze(s, p, c) == s
    decreases |s|
  {
    if |s| > 0 {
      assert Span(s, p) < 2 by {
        if |s| > 1 && p(s[0]) {
          assert !p(s[1]);
          assert s[1..][0] == s[1];
        }
      }
      SqueezeIdentity(s[1..], p, c);
    }
  }

  lemma KeepHead(s: string, q: char -> bool)
    requires |s| > 0
    ensures Keep(s, q) == (if q(s[0]) then [s[0]] else []) + Keep(s[1..], q)
  {
  }

  /** `Squeeze` touches `p`-characters only: the characters of a class `q`
      disjoint from `p` come out unchanged and in order. */
  lemma {:induction false} SqueezeKeeps(s: string, p: char -> bool, c: char, q: char -> bool)
    requires p(c)
    requires forall x :: p(x) ==> !q(x)
    ensures Keep(Squeeze(s, p, c), q) == Keep(s, q)
    decreases |s|
  {
    if |s| > 0 {
      var k := Span(s, p);
      if k >= 2 {
        SqueezeKeeps(s[k..], p, c, q);
        KeepNone([c], q);
        KeepConcat([c], Squeeze(s[k..], p, c), q);
        assert s == s[..k] + s[k..];
        KeepConcat(s[..k], s[k..], q);
        KeepNone(s[..k], q);
      } else {
        KeepHead(s, q);
        SqueezeKeeps(s[1..], p, c, q);
        KeepHead(Squeeze(s, p, c), q);
        assert Squeeze(s, p, c)[1..] == Squeeze(s[1..], p, c);
      }
    }
  }

  /** `Squeeze` keeps the maximal runs of any class `q` disjoint from `p`. */
  lemma {:induction false} SqueezeKeepsRuns(s: string, p: char -> bool, c: char, q: char -> bool)
    requires p(c)
    requires forall x :: p(x) ==> !q(x)
    ensures RunsOf(Squeeze(s, p, c), q) == RunsOf(s, q)
    decreases |s|
  {
    if |s| > 0 {
      var k := Span(s, p);
      if k >= 2 {
        SqueezeKeepsRuns(s[k..], p, c, q);
        RunsConsNot(c, Squeeze(s[k..], p, c), q);
        RunsSkip(s, k, q);
      } else {
        var x := s[1..];
        SqueezeKeepsRuns(x, p, c, q);
        assert s == [s[0]] + x;
        assert Squeeze(s, p, c) == [s[0]] + Squeeze(x, p, c);
        if q(s[0]) {
          RunsCons(s[0], x, q);
          RunsCons(s[0], Squeeze(x, p, c), q);
          assert (|x| > 0 && q(x[0])) <==> (|Squeeze(x, p, c)| > 0 && q(Squeeze(x, p, c)[0]));
        } else {
          RunsConsNot(s[0], x, q);
          RunsConsNot(s[0], Squeeze(x, p, c), q);
        }
      }
    }
  }

  /** `Trim` removes a `p`-prefix and a `p`-suffix, nothing else. */
  lemma TrimIsInfix(s: string, p: char -> bool)
    ensures exists i ::
      && 0 <= i <= |s| - |Trim(s, p)|
      && Trim(s, p) == s[i..i + |Trim(s, p)|]
      && All(s[..i], p)
      && All(s[i + |Trim(s, p)|..], p)
  {
    var lead := Span(s, p);
    var t := s[lead..];
    var n := |t| - Trailing(t, p);
    assert Trim(s, p) == s[lead..lead + n];
    assert s[lead + n..] == t[n..];
  }

  /** `Trim` keeps every character of a class `q` disjoint from `p`, in order. */
  lemma TrimKeeps(s: string, p: char -> bool, q: char -> bool)
    requires forall x :: p(x) ==> !q(x)
    ensures Keep(Trim(s, p), q) == Keep(s, q)
  {
    var lead := Span(s, p);
    var t := s[lead..];
    var n := |t| - Trailing(t, p);
    assert s == s[..lead] + (t[..n] + t[n..]);
    KeepConcat(s[..lead], t[..n] + t[n..], q);
    KeepConcat(t[..n], t[n..], q);
    KeepNone(s[..lead], q);
    KeepNone(t[n..], q);
  }

  /** `Trim` keeps the maximal runs of any class `q` disjoint from `p`. */
  lemma TrimKeepsRuns(s: string, p: char -> bool, q: char -> bool)
    requires forall x :: p(x) ==> !q(x)
    ensures RunsOf(Trim(s, p), q) == RunsOf(s, q)
  {
    var lead := Span(s, p);
    var t := s[lead..];
    var k := Trailing(t, p);
    RunsSkip(s, lead, q);
    RunsDropTail(t, k, q);
  }
}
