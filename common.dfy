/** The string normalisation helpers of `common.py`. A pandas `Series` of
    strings is a `seq<string>`; its `.str` methods apply element by element. */
module Common {
  import opened Chars
  import opened Runs
  import opened Whitespace
  import opened RegexSub

  datatype Option<T> = None | Some(value: T)

  // ---------------------------------------------------------------------
  // remove_punctuation, normalize

  /** `str.replace(c, '')`: every occurrence of `c` deleted. */
  function Delete(s: string, c: char): (r: string)
    ensures c !in r
    ensures multiset(r) == multiset(s)[c := 0]
    ensures forall i :: 0 <= i < |r| ==> r[i] in s
    ensures c !in s ==> r == s
  {
    DeleteCounts(s, c);
    var r := Keep(s, x => x != c);
    assert forall i :: 0 <= i < |r| ==> r[i] in s by {
      forall i | 0 <= i < |r| ensures r[i] in s {
        assert r[i] in multiset(r);
      }
    }
    r
  }

  lemma {:induction false} DeleteCounts(s: string, c: char)
    ensures c !in Keep(s, x => x != c)
    ensures multiset(Keep(s, x => x != c)) == multiset(s)[c := 0]
    ensures c !in s ==> Keep(s, x => x != c) == s
    decreases |s|
  {
    if |s| > 0 {
      DeleteCounts(s[1..], c);
      assert s == [s[0]] + s[1..];
      assert multiset(s) == multiset{s[0]} + multiset(s[1..]);
    }
  }

  /** `str.replace(c, '')` works piece by piece: the characters that remain
      keep their order. With the multiset `ensures` of `Delete` this fixes
      the result. */
  lemma DeleteAppend(a: string, b: string, c: char)
    ensures Delete(a + b, c) == Delete(a, c) + Delete(b, c)
  {
    KeepConcat(a, b, x => x != c);
  }

  /** A string `remove_punctuation` leaves as it is. */
  predicate Clean(s: string) {
    '.' !in s && ',' !in s && NoDoubleSpace(s) && Trimmed(s)
  }

  /** `remove_punctuation` on one string (lines 12-16): delete `.`, delete
      `,`, collapse whitespace runs, strip, in that order. */
  function RemovePunctuation(s: string): (r: string)
    ensures Clean(r)
    ensures |r| <= |s|
    ensures forall i :: 0 <= i < |r| ==> r[i] == ' ' || r[i] in s
  {
    var d1 := Delete(s, '.');
    var d2 := Delete(d1, ',');
    var c := Collapse(d2);
    var r := Strip(c);
    Drawn(c, d2, d1);
    Drawn(c, d1, s);
    Drawn(r, c, s);
    Absent(r, c, d2, '.');
    Absent(r, c, d2, ',');
    r
  }

  /** Every character of `a` is a space or one of `c`, given that every
      character of `a` is a space or one of `b`, and of `b` a space or one
      of `c`. */
  lemma Drawn(a: string, b: string, c: string)
    requires forall i :: 0 <= i < |a| ==> a[i] == ' ' || a[i] in b
    requires forall i :: 0 <= i < |b| ==> b[i] == ' ' || b[i] in c
    ensures forall i :: 0 <= i < |a| ==> a[i] == ' ' || a[i] in c
  {
    forall i | 0 <= i < |a| && a[i] != ' ' ensures a[i] in c {
      var j :| 0 <= j < |b| && b[j] == a[i];
    }
  }

  /** A character other than a space that `d` lacks is not in `r`. */
  lemma Absent(r: string, c: string, d: string, x: char)
    requires forall i :: 0 <= i < |r| ==> r[i] == ' ' || r[i] in c
    requires forall i :: 0 <= i < |c| ==> c[i] == ' ' || c[i] in d
    requires x != ' ' && x !in d
    ensures x !in r
  {
    Drawn(r, c, d);
  }

  /** `remove_punctuation` on a Series: element by element. */
  function RemovePunctuationSeries(series: seq<string>): (r: seq<string>)
    ensures |r| == |series|
    ensures forall i :: 0 <= i < |r| ==> Clean(r[i]) && r[i] == RemovePunctuation(series[i])
  {
    seq(|series|, i requires 0 <= i < |series| => RemovePunctuation(series[i]))
  }

  /** `remove_punctuation` changes a string exactly when the string is not
      clean. */
  lemma RemovePunctuationFixpoint(s: string)
    ensures RemovePunctuation(s) == s <==> Clean(s)
  {
    if Clean(s) {
      CollapseIdentity(s);
    }
  }

  lemma RemovePunctuationIdempotent(s: string)
    ensures RemovePunctuation(RemovePunctuation(s)) == RemovePunctuation(s)
  {
    RemovePunctuationFixpoint(RemovePunctuation(s));
  }

  lemma {:induction false} KeepCommute(s: string, p: char -> bool, q: char -> bool)
    ensures Keep(Keep(s, p), q) == Keep(Keep(s, q), p)
    decreases |s|
  {
    if |s| > 0 {
      KeepCommute(s[1..], p, q);
      var h := if p(s[0]) then [s[0]] else [];
      var g := if q(s[0]) then [s[0]] else [];
      KeepConcat(h, Keep(s[1..], p), q);
      KeepConcat(g, Keep(s[1..], q), p);
    }
  }

  /** The text `remove_punctuation` keeps: its non-whitespace characters are
      those of the input, in order, less every `.` and `,`. */
  lemma RemovePunctuationKeepsText(s: string)
    ensures Keep(RemovePunctuation(s), NotSpace) == Delete(Delete(Keep(s, NotSpace), '.'), ',')
  {
    var d1 := Delete(s, '.');
    var d2 := Delete(d1, ',');
    StripKeepsText(Collapse(d2));
    CollapseKeepsText(d2);
    KeepCommute(d1, x => x != ',', NotSpace);
    KeepCommute(s, x => x != '.', NotSpace);
  }

  /** `normalize` on one string (line 19): lower-case, then remove punctuation. */
  function Normalize(s: string): (r: string)
    ensures Clean(r)
    ensures NoUpper(r)
    ensures |r| <= |s|
  {
    var t := LowerString(s);
    var r := RemovePunctuation(t);
    assert forall i :: 0 <= i < |r| ==> !IsUpper(r[i]) by {
      forall i | 0 <= i < |r| ensures !IsUpper(r[i]) {
        if r[i] != ' ' {
          var j :| 0 <= j < |t| && t[j] == r[i];
        }
      }
    }
    r
  }

  /** `normalize` on a Series: element by element. */
  function NormalizeSeries(series: seq<string>): (r: seq<string>)
    ensures |r| == |series|
    ensures forall i :: 0 <= i < |r| ==> Clean(r[i]) && NoUpper(r[i]) && r[i] == Normalize(series[i])
  {
    seq(|series|, i requires 0 <= i < |series| => Normalize(series[i]))
  }

  lemma NormalizeIdempotent(s: string)
    ensures Normalize(Normalize(s)) == Normalize(s)
  {
    RemovePunctuationFixpoint(Normalize(s));
  }

  // ---------------------------------------------------------------------
  // word_counts

  /** `str.split()` with no argument: the maximal runs of non-whitespace. */
  function Words(s: string): (r: seq<string>)
    ensures forall k :: 0 <= k < |r| ==> |r[k]| > 0 && NoneOf(r[k], IsSpace)
  {
    RunsOf(s, NotSpace)
  }

  /** The words of `str.split()` are the non-whitespace text of the string,
      cut at whitespace: nothing lost, nothing added, in order. */
  lemma WordsAreText(s: string)
    ensures Concat(Words(s)) == Keep(s, NotSpace)
  {
    ConcatRunsIsKeep(s, NotSpace);
  }

  /** Joining words with one space and splitting again gives the words back. */
  lemma WordsOfJoin(ws: seq<string>)
    requires forall k :: 0 <= k < |ws| ==> |ws[k]| > 0 && NoneOf(ws[k], IsSpace)
    ensures Words(JoinWith(ws, ' ')) == ws
  {
    RunsOfJoinWith(ws, ' ', NotSpace);
  }

  /** A blank string, the empty string among them, has no words. */
  lemma WordsOfBlank(s: string)
    requires All(s, IsSpace)
    ensures Words(s) == []
  {
    RunsSkip(s, |s|, NotSpace);
  }

  /** `.str.split().explode()` with the rows of empty lists dropped (they
      become NaN, which `value_counts` leaves out). */
  function AllWords(series: seq<string>): (r: seq<string>)
    ensures forall k :: 0 <= k < |r| ==> |r[k]| > 0 && NoneOf(r[k], IsSpace)
  {
    if |series| == 0 then [] else AllWords(series[..|series| - 1]) + Words(series[|series| - 1])
  }

  /** One row of `value_counts`: a word and how often it appears. */
  datatype WordCount = WordCount(word: string, count: nat)

  /** The count held for `w`, or 0 when `w` has no row. */
  function CountOf(cs: seq<WordCount>, w: string): nat {
    if |cs| == 0 then 0 else if cs[0].word == w then cs[0].count else CountOf(cs[1..], w)
  }

  function Total(cs: seq<WordCount>): nat {
    if |cs| == 0 then 0 else cs[0].count + Total(cs[1..])
  }

  predicate DistinctWords(cs: seq<WordCount>) {
    forall a, b :: 0 <= a < b < |cs| ==> cs[a].word != cs[b].word
  }

  predicate Positive(cs: seq<WordCount>) {
    forall k :: 0 <= k < |cs| ==> cs[k].count > 0
  }

  /** Counts never increase from one row to the next. */
  predicate NonIncreasing(cs: seq<WordCount>) {
    forall a, b :: 0 <= a < b < |cs| ==> cs[a].count >= cs[b].count
  }

  /** The words of the rows, in row order. */
  function Keys(cs: seq<WordCount>): (r: seq<string>)
    ensures |r| == |cs|
    ensures forall k :: 0 <= k < |cs| ==> r[k] == cs[k].word
  {
    if |cs| == 0 then [] else [cs[0].word] + Keys(cs[1..])
  }

  predicate HasRow(cs: seq<WordCount>, w: string) {
    w in Keys(cs)
  }

  /** With distinct words, `CountOf` is the count on the word's row. */
  lemma {:induction false} CountOfRow(cs: seq<WordCount>, k: nat)
    requires DistinctWords(cs) && k < |cs|
    ensures CountOf(cs, cs[k].word) == cs[k].count
    decreases k
  {
    if k > 0 {
      CountOfRow(cs[1..], k - 1);
    }
  }

  lemma {:induction false} CountOfAbsent(cs: seq<WordCount>, w: string)
    requires !HasRow(cs, w)
    ensures CountOf(cs, w) == 0
    decreases |cs|
  {
    if |cs| > 0 {
      assert cs[0].word != w;
      assert Keys(cs) == [cs[0].word] + Keys(cs[1..]);
      CountOfAbsent(cs[1..], w);
    }
  }

  /** One more occurrence of `w`: the count on its row goes up by one, or a
      row with count 1 is added at the end. */
  function Bump(cs: seq<WordCount>, w: string): (r: seq<WordCount>)
    ensures Positive(cs) ==> Positive(r)
    decreases |cs|
  {
    if |cs| == 0 then [WordCount(w, 1)]
    else if cs[0].word == w then [WordCount(w, cs[0].count + 1)] + cs[1..]
    else [cs[0]] + Bump(cs[1..], w)
  }

  lemma {:induction false} BumpTotal(cs: seq<WordCount>, w: string)
    ensures Total(Bump(cs, w)) == Total(cs) + 1
    decreases |cs|
  {
    if |cs| > 0 {
      if cs[0].word == w {
        assert ([WordCount(w, cs[0].count + 1)] + cs[1..])[1..] == cs[1..];
      } else {
        BumpTotal(cs[1..], w);
        assert ([cs[0]] + Bump(cs[1..], w))[1..] == Bump(cs[1..], w);
      }
    }
  }

  lemma {:induction false} BumpCount(cs: seq<WordCount>, w: string, x: string)
    ensures CountOf(Bump(cs, w), x) == CountOf(cs, x) + (if x == w then 1 else 0)
    decreases |cs|
  {
    if |cs| > 0 {
      if cs[0].word == w {
        assert ([WordCount(w, cs[0].count + 1)] + cs[1..])[1..] == cs[1..];
      } else {
        BumpCount(cs[1..], w, x);
        assert ([cs[0]] + Bump(cs[1..], w))[1..] == Bump(cs[1..], w);
      }
    }
  }

  lemma {:induction false} BumpKeys(cs: seq<WordCount>, w: string)
    ensures Keys(Bump(cs, w)) == if w in Keys(cs) then Keys(cs) else Keys(cs) + [w]
    decreases |cs|
  {
    if |cs| > 0 {
      assert Keys(cs) == [cs[0].word] + Keys(cs[1..]);
      if cs[0].word == w {
        assert Keys(Bump(cs, w)) == Keys(cs);
      } else {
        BumpKeys(cs[1..], w);
        var b := Bump(cs, w);
        assert b[1..] == Bump(cs[1..], w);
        assert Keys(b) == [cs[0].word] + Keys(Bump(cs[1..], w));
      }
    }
  }

  lemma BumpDistinct(cs: seq<WordCount>, w: string)
    requires DistinctWords(cs)
    ensures DistinctWords(Bump(cs, w))
  {
    BumpKeys(cs, w);
    var b := Bump(cs, w);
    var ks := Keys(cs);
    forall a, c | 0 <= a < c < |b| ensures b[a].word != b[c].word {
      assert b[a].word == Keys(b)[a] && b[c].word == Keys(b)[c];
      if w !in ks && c == |ks| {
        assert Keys(b)[a] == ks[a];
      }
    }
  }

  lemma BumpFacts(cs: seq<WordCount>, w: string)
    requires DistinctWords(cs) && Positive(cs)
    ensures DistinctWords(Bump(cs, w)) && Positive(Bump(cs, w))
    ensures Total(Bump(cs, w)) == Total(cs) + 1
    ensures forall x :: CountOf(Bump(cs, w), x) == CountOf(cs, x) + (if x == w then 1 else 0)
    ensures forall x :: HasRow(Bump(cs, w), x) <==> HasRow(cs, x) || x == w
  {
    BumpDistinct(cs, w);
    BumpTotal(cs, w);
    BumpKeys(cs, w);
    forall x ensures CountOf(Bump(cs, w), x) == CountOf(cs, x) + (if x == w then 1 else 0) {
      BumpCount(cs, w, x);
    }
  }

  /** The words of `ws` with their counts, in order of first occurrence. */
  function Tally(ws: seq<string>): seq<WordCount> {
    if |ws| == 0 then [] else Bump(Tally(ws[..|ws| - 1]), ws[|ws| - 1])
  }

  lemma {:induction false} TallyFacts(ws: seq<string>)
    ensures DistinctWords(Tally(ws)) && Positive(Tally(ws))
    ensures Total(Tally(ws)) == |ws|
    ensures forall x :: CountOf(Tally(ws), x) == multiset(ws)[x]
    ensures forall x :: HasRow(Tally(ws), x) <==> x in ws
    decreases |ws|
  {
    if |ws| > 0 {
      var init := ws[..|ws| - 1];
      var w := ws[|ws| - 1];
      TallyFacts(init);
      BumpFacts(Tally(init), w);
      assert ws == init + [w];
      assert multiset(ws) == multiset(init) + multiset{w};
      forall x ensures x in ws <==> x in init || x == w {
        if x in ws {
          var k :| 0 <= k < |ws| && ws[k] == x;
          if k < |ws| - 1 {
            assert init[k] == x;
          }
        }
      }
    }
  }

  /** `c` goes in front of the first row whose count is not larger. */
  function Insert(c: WordCount, cs: seq<WordCount>): seq<WordCount>
    decreases |cs|
  {
    if |cs| == 0 || c.count >= cs[0].count then [c] + cs else [cs[0]] + Insert(c, cs[1..])
  }

  /** Sorted by count, largest first. */
  function SortByCount(cs: seq<WordCount>): seq<WordCount>
    decreases |cs|
  {
    if |cs| == 0 then [] else Insert(cs[0], SortByCount(cs[1..]))
  }

  lemma {:induction false} InsertPermutes(c: WordCount, cs: seq<WordCount>)
    ensures multiset(Insert(c, cs)) == multiset(cs) + multiset{c}
    decreases |cs|
  {
    if |cs| > 0 && c.count < cs[0].count {
      InsertPermutes(c, cs[1..]);
      assert cs == [cs[0]] + cs[1..];
    }
  }

  lemma {:induction false} InsertTotal(c: WordCount, cs: seq<WordCount>)
    ensures Total(Insert(c, cs)) == c.count + Total(cs)
    decreases |cs|
  {
    if |cs| == 0 || c.count >= cs[0].count {
      assert ([c] + cs)[1..] == cs;
    } else {
      var t := Insert(c, cs[1..]);
      InsertTotal(c, cs[1..]);
      assert ([cs[0]] + t)[1..] == t;
    }
  }

  lemma {:induction false} InsertSorted(c: WordCount, cs: seq<WordCount>)
    requires NonIncreasing(cs)
    ensures NonIncreasing(Insert(c, cs))
    ensures |cs| > 0 ==> Insert(c, cs)[0] == c || Insert(c, cs)[0] == cs[0]
    decreases |cs|
  {
    if |cs| == 0 || c.count >= cs[0].count {
      ConsSorted(c, cs);
    } else {
      var t := Insert(c, cs[1..]);
      InsertSorted(c, cs[1..]);
      if |cs| > 1 {
        assert cs[1..][0] == cs[1];
      }
      ConsSorted(cs[0], t);
    }
  }

  /** A row no smaller than the first of a sorted list can go in front. */
  lemma ConsSorted(x: WordCount, t: seq<WordCount>)
    requires NonIncreasing(t)
    requires |t| == 0 || x.count >= t[0].count
    ensures NonIncreasing([x] + t)
  {
    var r := [x] + t;
    forall a, b | 0 <= a < b < |r| ensures r[a].count >= r[b].count {
      assert r[b] == t[b - 1];
      if a > 0 {
        assert r[a] == t[a - 1];
      }
    }
  }

  lemma {:induction false} SortSorted(cs: seq<WordCount>)
    ensures NonIncreasing(SortByCount(cs))
    decreases |cs|
  {
    if |cs| > 0 {
      SortSorted(cs[1..]);
      InsertSorted(cs[0], SortByCount(cs[1..]));
    }
  }

  lemma {:induction false} SortPermutes(cs: seq<WordCount>)
    ensures multiset(SortByCount(cs)) == multiset(cs)
    decreases |cs|
  {
    if |cs| > 0 {
      var rest := SortByCount(cs[1..]);
      SortPermutes(cs[1..]);
      InsertPermutes(cs[0], rest);
      assert SortByCount(cs) == Insert(cs[0], rest);
      assert multiset(cs) == multiset(cs[1..]) + multiset{cs[0]} by {
        assert cs == [cs[0]] + cs[1..];
      }
    }
  }

  lemma {:induction false} SortTotal(cs: seq<WordCount>)
    ensures Total(SortByCount(cs)) == Total(cs)
    decreases |cs|
  {
    if |cs| > 0 {
      SortTotal(cs[1..]);
      InsertTotal(cs[0], SortByCount(cs[1..]));
    }
  }

  /** Rows that are a permutation of rows with distinct words have distinct
      words, and the same count for every word. */
  lemma PermutationRows(a: seq<WordCount>, b: seq<WordCount>)
    requires multiset(a) == multiset(b)
    requires DistinctWords(a) && Positive(a)
    ensures DistinctWords(b) && Positive(b)
    ensures forall k :: 0 <= k < |b| ==> CountOf(a, b[k].word) == b[k].count
    ensures forall x :: HasRow(b, x) <==> HasRow(a, x)
  {
    SameMembers(a, b);
    forall k | 0 <= k < |b| ensures CountOf(a, b[k].word) == b[k].count && b[k].count > 0 {
      var i :| 0 <= i < |a| && a[i] == b[k];
      CountOfRow(a, i);
    }
    forall x ensures HasRow(b, x) <==> HasRow(a, x) {
      if HasRow(b, x) {
        var k :| 0 <= k < |b| && Keys(b)[k] == x;
        var i :| 0 <= i < |a| && a[i] == b[k];
        assert Keys(a)[i] == x;
      }
      if HasRow(a, x) {
        var i :| 0 <= i < |a| && Keys(a)[i] == x;
        var k :| 0 <= k < |b| && b[k] == a[i];
        assert Keys(b)[k] == x;
      }
    }
    PermutationDistinct(a, b);
  }

  lemma SameMembers(a: seq<WordCount>, b: seq<WordCount>)
    requires multiset(a) == multiset(b)
    ensures forall k :: 0 <= k < |b| ==> b[k] in a
    ensures forall i :: 0 <= i < |a| ==> a[i] in b
  {
    forall k | 0 <= k < |b| ensures b[k] in a {
      assert b[k] in multiset(b);
    }
    forall i | 0 <= i < |a| ensures a[i] in b {
      assert a[i] in multiset(a);
    }
  }

  lemma PermutationDistinct(a: seq<WordCount>, b: seq<WordCount>)
    requires multiset(a) == multiset(b)
    requires DistinctWords(a)
    ensures DistinctWords(b)
  {
    SameMembers(a, b);
    forall p, q | 0 <= p < q < |b| ensures b[p].word != b[q].word {
      if b[p].word == b[q].word {
        var i :| 0 <= i < |a| && a[i] == b[p];
        var j :| 0 <= j < |a| && a[j] == b[q];
        assert i == j;
        MultiplicityTwo(b, p, q);
        MultiplicityOne(a, i);
        assert false;
      }
    }
  }

  lemma MultiplicityTwo(b: seq<WordCount>, p: nat, q: nat)
    requires p < q < |b| && b[p] == b[q]
    ensures multiset(b)[b[p]] >= 2
  {
    assert b == b[..p] + [b[p]] + b[p + 1..q] + [b[q]] + b[q + 1..];
  }

  lemma MultiplicityOne(a: seq<WordCount>, i: nat)
    requires DistinctWords(a) && i < |a|
    ensures multiset(a)[a[i]] == 1
  {
    assert a == a[..i] + [a[i]] + a[i + 1..];
    assert a[i] !in a[..i];
    assert a[i] !in a[i + 1..];
  }

  /** The order and the totals of the sorted tally of `ws`. */
  lemma CountsShape(ws: seq<string>)
    ensures NonIncreasing(SortByCount(Tally(ws)))
    ensures DistinctWords(SortByCount(Tally(ws)))
    ensures Total(SortByCount(Tally(ws))) == |ws|
  {
    var t := Tally(ws);
    TallyFacts(ws);
    SortSorted(t);
    SortPermutes(t);
    SortTotal(t);
    PermutationRows(t, SortByCount(t));
  }

  /** The rows of the sorted tally of `ws`: one per distinct word, with its
      multiplicity. */
  lemma CountsRows(ws: seq<string>)
    ensures var r := SortByCount(Tally(ws));
      && (forall k :: 0 <= k < |r| ==> r[k].count == multiset(ws)[r[k].word] && r[k].count > 0)
      && (forall w :: HasRow(r, w) <==> w in ws)
  {
    var t := Tally(ws);
    var r := SortByCount(t);
    TallyFacts(ws);
    SortPermutes(t);
    PermutationRows(t, r);
  }

  /** `word_counts` (lines 27-32): every word of every string with the
      number of times it occurs, largest count first. */
  function WordCounts(series: seq<string>): (r: seq<WordCount>)
    ensures NonIncreasing(r)
    ensures DistinctWords(r)
    ensures forall k :: 0 <= k < |r| ==> r[k].count == multiset(AllWords(series))[r[k].word]
    ensures forall k :: 0 <= k < |r| ==> r[k].count > 0
    ensures forall w :: HasRow(r, w) <==> w in AllWords(series)
    ensures Total(r) == |AllWords(series)|
    ensures forall k :: 0 <= k < |r| ==> |r[k].word| > 0 && NoneOf(r[k].word, IsSpace)
  {
    var ws := AllWords(series);
    var r := SortByCount(Tally(ws));
    CountsShape(ws);
    CountsRows(ws);
    assert forall k :: 0 <= k < |r| ==> r[k].word in ws by {
      forall k | 0 <= k < |r| ensures r[k].word in ws {
        assert HasRow(r, r[k].word);
      }
    }
    r
  }

  /** The words of a series are those of its two halves, in order. */
  lemma {:induction false} AllWordsAppend(a: seq<string>, b: seq<string>)
    ensures AllWords(a + b) == AllWords(a) + AllWords(b)
    decreases |b|
  {
    if |b| > 0 {
      var b' := b[..|b| - 1];
      AllWordsAppend(a, b');
      assert (a + b)[..|a + b| - 1] == a + b';
      assert (a + b)[|a + b| - 1] == b[|b| - 1];
    } else {
      assert a + b == a;
    }
  }

  /** A blank string, the empty string among them, adds no word, wherever
      it stands in the series. */
  lemma AllWordsIgnoreBlank(a: seq<string>, s: string, b: seq<string>)
    requires All(s, IsSpace)
    ensures AllWords(a + [s] + b) == AllWords(a + b)
  {
    WordsOfBlank(s);
    AllWordsAppend(a + [s], b);
    AllWordsAppend(a, [s]);
    AllWordsAppend(a, b);
    assert [s][..0] == [];
    assert AllWords([s]) == Words(s);
  }

  /** A blank string, the empty string among them, adds nothing to the
      counts, wherever it stands in the series. */
  lemma WordCountsIgnoreBlank(a: seq<string>, s: string, b: seq<string>)
    requires All(s, IsSpace)
    ensures WordCounts(a + [s] + b) == WordCounts(a + b)
  {
    AllWordsIgnoreBlank(a, s, b);
  }

  // ---------------------------------------------------------------------
  // drop_words_from_string, drop_words_from_series

  /** A listed word the pattern can take literally: non-empty, word characters only. */
  predicate IsPlainWord(w: string) {
    |w| > 0 && All(w, IsWordChar)
  }

  predicate PlainWords(words: seq<string>) {
    forall i :: 0 <= i < |words| ==> IsPlainWord(words[i])
  }

  /** `\b` holds at position `i` of `s`. */
  predicate Boundary(s: string, i: nat)
    requires i <= |s|
  {
    (0 < i && IsWordChar(s[i - 1])) != (i < |s| && IsWordChar(s[i]))
  }

  /** `\bw\b` matches `s` at position `p`. */
  predicate MatchesAt(s: string, p: nat, w: string)
    requires p <= |s|
  {
    p + |w| <= |s| && s[p..p + |w|] == w && Boundary(s, p) && Boundary(s, p + |w|)
  }

  /** The alternative of `\bw1\b|\bw2\b|...` that matches at `p`: the first,
      in list order from alternative `from` on, that matches there. */
  function FirstMatch(s: string, p: nat, words: seq<string>, from: nat): (r: Option<nat>)
    requires p <= |s| && from <= |words|
    ensures r.None? <==>
      forall k {:trigger MatchesAt(s, p, words[k])} :: from <= k < |words| ==> !MatchesAt(s, p, words[k])
    ensures r.Some? ==> from <= r.value < |words| && MatchesAt(s, p, words[r.value])
    ensures r.Some? ==>
      forall j {:trigger MatchesAt(s, p, words[j])} :: from <= j < r.value ==> !MatchesAt(s, p, words[j])
    decreases |words| - from
  {
    if from == |words| then None
    else if MatchesAt(s, p, words[from]) then Some(from)
    else FirstMatch(s, p, words, from + 1)
  }

  /** The length of the text the pattern `\bw1\b|\bw2\b|...` matches when
      tried at position `q` of `s`, 0 when it fails there. */
  function MatchLength(s: string, words: seq<string>, q: nat): (n: nat)
    ensures q + n <= |s| || n == 0
  {
    if q > |s| then 0
    else match FirstMatch(s, q, words, 0)
      case None => 0
      case Some(i) => |words[i]|
  }

  /** The pattern, position by position, as the scan of `re.sub` tries it. */
  function WordPattern(s: string, words: seq<string>): nat -> nat {
    (q: nat) => MatchLength(s, words, q)
  }

  /** At the start of a run of word characters, `\bw\b` matches exactly when
      `w` is the whole run. */
  lemma {:induction false} MatchesAtRunStart(s: string, p: nat, w: string)
    requires p < |s| && IsWordChar(s[p])
    requires p == 0 || !IsWordChar(s[p - 1])
    requires IsPlainWord(w)
    ensures MatchesAt(s, p, w) <==> w == s[p..][..Span(s[p..], IsWordChar)]
  {
    var x := s[p..];
    var k := Span(x, IsWordChar);
    assert Boundary(s, p);
    if MatchesAt(s, p, w) {
      var m := |w|;
      assert x[..m] == w;
      assert m == k;
    }
    if w == x[..k] {
      assert w == s[p..p + k];
      assert s[p + k - 1] == x[..k][k - 1];
      assert p + k < |s| ==> s[p + k] == x[k];
    }
  }

  /** At the start of a whole word, the pattern matches the whole word if it
      is listed, and nothing otherwise. */
  lemma {:induction false} FirstMatchAtRun(s: string, words: seq<string>, p: nat)
    requires PlainWords(words)
    requires p < |s| && IsWordChar(s[p])
    requires p == 0 || !IsWordChar(s[p - 1])
    ensures var k := Span(s[p..], IsWordChar);
      && (FirstMatch(s, p, words, 0).Some? <==> s[p..p + k] in words)
      && (FirstMatch(s, p, words, 0).Some? ==> words[FirstMatch(s, p, words, 0).value] == s[p..p + k])
  {
    var x := s[p..];
    var k := Span(x, IsWordChar);
    var run := x[..k];
    assert run == s[p..p + k];
    forall i | 0 <= i < |words| ensures MatchesAt(s, p, words[i]) <==> words[i] == run {
      MatchesAtRunStart(s, p, words[i]);
    }
    if run in words {
      var i :| 0 <= i < |words| && words[i] == run;
      assert MatchesAt(s, p, words[i]);
    }
  }

  /** Away from the start of a whole word no alternative can match: a plain
      word needs a word character at `p` and a `\b` before it. */
  lemma NoMatchOffRun(s: string, words: seq<string>, p: nat)
    requires PlainWords(words)
    requires p <= |s|
    requires p == |s| || !RunStart(s, p, IsWordChar)
    ensures FirstMatch(s, p, words, 0).None?
  {
    forall k | 0 <= k < |words| ensures !MatchesAt(s, p, words[k]) {
      var w := words[k];
      assert IsPlainWord(w);
      if p + |w| <= |s| && s[p..p + |w|] == w {
        assert s[p..p + |w|][0] == s[p];
      }
    }
  }

  /** The pattern `\bw1\b|\bw2\b|...` over plain words matches exactly the
      listed whole words, each where it starts. */
  lemma MatchLengthIsRunMatch(s: string, words: seq<string>, q: nat)
    requires PlainWords(words)
    requires q <= |s|
    ensures MatchLength(s, words, q) == RunMatch(s, words, IsWordChar, q)
  {
    if q < |s| && RunStart(s, q, IsWordChar) {
      FirstMatchAtRun(s, words, q);
    } else {
      NoMatchOffRun(s, words, q);
    }
  }

  lemma WordPatternIsRunMatch(s: string, words: seq<string>)
    requires PlainWords(words)
    ensures forall q: nat {:trigger RunMatch(s, words, IsWordChar, q)} :: q <= |s| ==>
      WordPattern(s, words)(q) == RunMatch(s, words, IsWordChar, q)
    ensures Fits(s, WordPattern(s, words))
  {
    forall q: nat | q <= |s| ensures WordPattern(s, words)(q) == RunMatch(s, words, IsWordChar, q) {
      MatchLengthIsRunMatch(s, words, q);
    }
    RunMatchFits(s, words, IsWordChar, WordPattern(s, words));
  }

  /** `re.sub(pat, '', s)` for `pat` the alternation of `\bw\b` over `words`
      (lines 35-36). */
  function DropMatches(s: string, words: seq<string>): (r: string)
    requires PlainWords(words)
    ensures r == DropRuns(s, words, IsWordChar)
  {
    WordPatternIsRunMatch(s, words);
    EraseIsDropRuns(s, words, IsWordChar, WordPattern(s, words), 0);
    assert s[0..] == s;
    Erase(s, WordPattern(s, words), 0)
  }

  /** `drop_words_from_string` (lines 34-39). The listed words are taken to be
      plain words, so that the pattern matches them literally. */
  function DropWordsFromString(s: string, words: seq<string>): (r: string)
    requires PlainWords(words)
    ensures NoDoubleSpace(r) && Trimmed(r)
    ensures RunsOf(r, IsWordChar) == Unlisted(RunsOf(s, IsWordChar), words)
    ensures forall t :: t in RunsOf(r, IsWordChar) ==> t !in words
  {
    var d := DropMatches(s, words);
    DropRunsRuns(s, words, IsWordChar);
    SpacesAreNotWords();
    CollapseKeepsRuns(d, IsWordChar);
    StripKeepsRuns(Collapse(d), IsWordChar);
    Strip(Collapse(d))
  }

  lemma SpacesAreNotWords()
    ensures forall c :: IsSpace(c) ==> !IsWordChar(c)
  {
    forall c ensures IsSpace(c) ==> !IsWordChar(c) {
      SpaceIsNotWord(c);
    }
  }

  /** Neither a word character nor whitespace: punctuation, say. */
  predicate IsOther(c: char) {
    !IsWordChar(c) && !IsSpace(c)
  }

  /** Dropping words keeps every character that is neither a word character
      nor whitespace, in order. */
  lemma DropWordsKeepsOther(s: string, words: seq<string>)
    requires PlainWords(words)
    ensures Keep(DropWordsFromString(s, words), IsOther) == Keep(s, IsOther)
  {
    var d := DropMatches(s, words);
    DropRunsKeeps(s, words, IsWordChar, IsOther);
    SqueezeKeeps(d, IsSpace, ' ', IsOther);
    TrimKeeps(Collapse(d), IsSpace, IsOther);
  }

  /** With no word listed only the whitespace is normalised. */
  lemma DropNoWords(s: string)
    ensures DropWordsFromString(s, []) == Strip(Collapse(s))
  {
    forall q: nat | q <= |s| ensures WordPattern(s, [])(q) == 0 {
      assert FirstMatch(s, q, [], 0).None?;
    }
    EraseNothing(s, WordPattern(s, []));
  }

  /** A string none of whose whole words is listed has nothing for the
      pattern to remove. */
  lemma NothingToDrop(r: string, words: seq<string>)
    requires PlainWords(words)
    requires forall t :: t in RunsOf(r, IsWordChar) ==> t !in words
    ensures DropMatches(r, words) == r
  {
    var m := WordPattern(r, words);
    WordPatternIsRunMatch(r, words);
    forall q: nat | q <= |r| ensures m(q) == 0 {
      assert m(q) == RunMatch(r, words, IsWordChar, q);
      NoListedRun(r, words, q);
    }
    EraseNothing(r, m);
  }

  lemma NoListedRun(r: string, words: seq<string>, q: nat)
    requires forall t :: t in RunsOf(r, IsWordChar) ==> t !in words
    ensures RunMatch(r, words, IsWordChar, q) == 0
  {
    var n := RunMatch(r, words, IsWordChar, q);
    if n > 0 {
      RunStartInRuns(r, q, IsWordChar);
    }
  }

  /** A second pass changes nothing. */
  lemma DropWordsIdempotent(s: string, words: seq<string>)
    requires PlainWords(words)
    ensures DropWordsFromString(DropWordsFromString(s, words), words) == DropWordsFromString(s, words)
  {
    var r := DropWordsFromString(s, words);
    NothingToDrop(r, words);
    CollapseIdentity(r);
  }

  /** `drop_words_from_series` (lines 41-42): element by element. */
  function DropWordsFromSeries(series: seq<string>, words: seq<string>): (r: seq<string>)
    requires PlainWords(words)
    ensures |r| == |series|
    ensures forall i :: 0 <= i < |r| ==> r[i] == DropWordsFromString(series[i], words)
    ensures forall i :: 0 <= i < |r| ==> NoDoubleSpace(r[i]) && Trimmed(r[i])
  {
    seq(|series|, i requires 0 <= i < |series| => DropWordsFromString(series[i], words))
  }
}
