/** `_create_ngrams`: the character n-grams the TF-IDF vectoriser is fitted on.
    An n-gram is described by its slot, a length and a start offset; the
    n-grams of a string are the texts of its slots, listed by length, then by
    offset, with a slot dropped when its text holds the character `' '`. */
module Ngrams {

  /** The n-gram of length `len` that starts at offset `start`. */
  datatype Slot = Slot(len: nat, start: nat)

  predicate Fits(s: string, t: Slot) {
    t.start + t.len <= |s|
  }

  /** The window `s[start:start + len]` exists and holds no `' '`. */
  predicate Kept(s: string, t: Slot) {
    Fits(s, t) && ' ' !in s[t.start..t.start + t.len]
  }

  /** `(a.len, a.start)` comes strictly before `(b.len, b.start)`. */
  predicate Before(a: Slot, b: Slot) {
    a.len < b.len || (a.len == b.len && a.start < b.start)
  }

  predicate Ascending(ts: seq<Slot>) {
    forall j, k :: 0 <= j < k < |ts| ==> Before(ts[j], ts[k])
  }

  /** The kept windows of length `n` from offset `i` on: the tuples
      `zip(*[s[i:] for i in range(n)])` that hold no `' '` (line 24-25). */
  function WindowSlots(s: string, n: nat, i: nat): seq<Slot>
    requires n >= 1
    decreases |s| - i
  {
    if i + n > |s| then []
    else if ' ' in s[i..i + n] then WindowSlots(s, n, i + 1)
    else [Slot(n, i)] + WindowSlots(s, n, i + 1)
  }

  /** The kept windows of length `n`. With `n <= 0` `range(n)` is empty, `zip()`
      yields nothing and there are none. */
  function LengthSlots(s: string, n: int): seq<Slot> {
    if n <= 0 then [] else WindowSlots(s, n, 0)
  }

  /** Every kept slot with a length in `[lo, hi]`, in the order the loop over
      `range(min_length, max_length + 1)` (line 23) produces them. */
  function Slots(s: string, lo: int, hi: int): seq<Slot>
    decreases hi - lo
  {
    if hi < lo then [] else Slots(s, lo, hi - 1) + LengthSlots(s, hi)
  }

  predicate AllFit(s: string, ts: seq<Slot>) {
    forall k :: 0 <= k < |ts| ==> Fits(s, ts[k])
  }

  /** The window a slot names, `s[start:start + len]`. */
  function Text(s: string, t: Slot): (w: string)
    requires Fits(s, t)
    ensures |w| == t.len
    ensures forall k :: 0 <= k < |w| ==> w[k] == s[t.start + k]
  {
    s[t.start..t.start + t.len]
  }

  /** `''.join(ngram)` for each slot. */
  function Texts(s: string, ts: seq<Slot>): (r: seq<string>)
    requires AllFit(s, ts)
    ensures |r| == |ts|
    ensures forall k :: 0 <= k < |ts| ==> r[k] == Text(s, ts[k])
  {
    seq(|ts|, k requires 0 <= k < |ts| => Text(s, ts[k]))
  }

  /** A slot `_create_ngrams(s, lo, hi)` keeps. */
  predicate IsNgram(s: string, lo: int, hi: int, t: Slot) {
    lo <= t.len <= hi && t.len >= 1 && Kept(s, t)
  }

  /** The windows of one length are kept slots of that length, by offset. */
  lemma {:induction false} WindowSlotsFacts(s: string, n: nat, i: nat)
    requires n >= 1
    ensures forall k :: 0 <= k < |WindowSlots(s, n, i)| ==>
      WindowSlots(s, n, i)[k].len == n && i <= WindowSlots(s, n, i)[k].start && Kept(s, WindowSlots(s, n, i)[k])
    ensures forall j, k :: 0 <= j < k < |WindowSlots(s, n, i)| ==>
      WindowSlots(s, n, i)[j].start < WindowSlots(s, n, i)[k].start
    decreases |s| - i
  {
    if i + n <= |s| {
      WindowSlotsFacts(s, n, i + 1);
    }
  }

  lemma LengthSlotsFacts(s: string, n: int)
    ensures forall k :: 0 <= k < |LengthSlots(s, n)| ==> LengthSlots(s, n)[k].len == n && Kept(s, LengthSlots(s, n)[k])
    ensures forall j, k :: 0 <= j < k < |LengthSlots(s, n)| ==> LengthSlots(s, n)[j].start < LengthSlots(s, n)[k].start
  {
    if n >= 1 {
      WindowSlotsFacts(s, n, 0);
    }
  }

  lemma {:induction false} SlotsFit(s: string, lo: int, hi: int)
    ensures forall k :: 0 <= k < |Slots(s, lo, hi)| ==> Kept(s, Slots(s, lo, hi)[k])
    decreases hi - lo
  {
    if lo <= hi {
      SlotsFit(s, lo, hi - 1);
      LengthSlotsFacts(s, hi);
      var a := Slots(s, lo, hi - 1);
      var b := LengthSlots(s, hi);
      forall k | 0 <= k < |a + b| ensures Kept(s, (a + b)[k]) {
        if k < |a| { assert (a + b)[k] == a[k]; } else { assert (a + b)[k] == b[k - |a|]; }
      }
    }
  }

  /** The list comprehension of line 25 for one length `n`. */
  function Windows(s: string, n: int): (r: seq<string>)
    ensures forall k :: 0 <= k < |r| ==> |r[k]| == n && ' ' !in r[k]
  {
    LengthSlotsFacts(s, n);
    Texts(s, LengthSlots(s, n))
  }

  /** `_create_ngrams(s, lo, hi)`, as a value: the texts of `Slots(s, lo, hi)`. */
  function NgramsUpTo(s: string, lo: int, hi: int): seq<string> {
    SlotsFit(s, lo, hi);
    Texts(s, Slots(s, lo, hi))
  }

  /** `_create_ngrams` (lines 16-27): the `for` loop extends `result` with the
      n-grams of each length in turn. */
  method CreateNgrams(s: string, minLength: int, maxLength: int) returns (result: seq<string>)
    ensures result == NgramsUpTo(s, minLength, maxLength)
  {
    result := [];
    var n := minLength;
    while n <= maxLength
      invariant minLength <= n <= (if maxLength < minLength then minLength else maxLength + 1)
      invariant result == NgramsUpTo(s, minLength, n - 1)
      decreases maxLength - n
    {
      NgramsStep(s, minLength, n);
      result := result + Windows(s, n);
      n := n + 1;
    }
  }

  lemma {:induction false} TextsAppend(s: string, a: seq<Slot>, b: seq<Slot>)
    requires AllFit(s, a) && AllFit(s, b)
    ensures AllFit(s, a + b)
    ensures Texts(s, a + b) == Texts(s, a) + Texts(s, b)
  {
    assert forall k :: 0 <= k < |a + b| ==> Fits(s, (a + b)[k]) by {
      forall k | 0 <= k < |a + b| ensures Fits(s, (a + b)[k]) {
        if k < |a| { assert (a + b)[k] == a[k]; } else { assert (a + b)[k] == b[k - |a|]; }
      }
    }
  }

  /** One more length appends that length's windows. */
  lemma {:induction false} NgramsStep(s: string, lo: int, n: int)
    requires lo <= n
    ensures NgramsUpTo(s, lo, n) == NgramsUpTo(s, lo, n - 1) + Windows(s, n)
  {
    var a := Slots(s, lo, n - 1);
    var b := LengthSlots(s, n);
    assert Slots(s, lo, n) == a + b;
    SlotsFit(s, lo, n - 1);
    SlotsFit(s, lo, n);
    assert AllFit(s, b) by {
      forall k | 0 <= k < |b| ensures Fits(s, b[k]) {
        assert (a + b)[|a| + k] == b[k];
      }
    }
    TextsAppend(s, a, b);
  }

  // ---------------------------------------------------------------------
  // What the slots are

  /** The windows of one length are exactly the kept slots of that length. */
  lemma {:induction false} WindowSlotsExact(s: string, n: nat, i: nat, t: Slot)
    requires n >= 1
    ensures t in WindowSlots(s, n, i) <==> t.len == n && i <= t.start && Kept(s, t)
    decreases |s| - i
  {
    if i + n <= |s| {
      WindowSlotsExact(s, n, i + 1, t);
    }
  }

  /** A slot is listed exactly when its length is in `[lo, hi]`, it is at
      least 1, and its window fits and holds no `' '`. */
  lemma LengthSlotsExact(s: string, n: int, t: Slot)
    ensures t in LengthSlots(s, n) <==> t.len == n && n >= 1 && Kept(s, t)
  {
    if n >= 1 {
      WindowSlotsExact(s, n, 0, t);
    }
  }

  lemma {:induction false} SlotsExact(s: string, lo: int, hi: int, t: Slot)
    ensures t in Slots(s, lo, hi) <==> lo <= t.len <= hi && t.len >= 1 && Kept(s, t)
    decreases hi - lo
  {
    if lo <= hi {
      var a := Slots(s, lo, hi - 1);
      var b := LengthSlots(s, hi);
      assert Slots(s, lo, hi) == a + b;
      SlotsExact(s, lo, hi - 1, t);
      LengthSlotsExact(s, hi, t);
    }
  }

  /** Slots come by length, then by offset, each once. */
  lemma {:induction false} SlotsAscending(s: string, lo: int, hi: int)
    ensures Ascending(Slots(s, lo, hi))
    ensures forall k :: 0 <= k < |Slots(s, lo, hi)| ==> Slots(s, lo, hi)[k].len <= hi
    decreases hi - lo
  {
    if lo <= hi {
      SlotsAscending(s, lo, hi - 1);
      LengthSlotsFacts(s, hi);
      var a := Slots(s, lo, hi - 1);
      var b := LengthSlots(s, hi);
      assert forall k :: 0 <= k < |b| ==> b[k].len == hi;
      forall j, k | 0 <= j < k < |a + b| ensures Before((a + b)[j], (a + b)[k]) {
        if k < |a| {
          assert (a + b)[j] == a[j] && (a + b)[k] == a[k];
        } else if j < |a| {
          assert (a + b)[j] == a[j] && (a + b)[k] == b[k - |a|];
        } else {
          assert (a + b)[j] == b[j - |a|] && (a + b)[k] == b[k - |a|];
        }
      }
      forall k | 0 <= k < |a + b| ensures (a + b)[k].len <= hi {
        if k < |a| { assert (a + b)[k] == a[k]; } else { assert (a + b)[k] == b[k - |a|]; }
      }
    }
  }

  // ---------------------------------------------------------------------
  // What `_create_ngrams` returns

  /** A token is an n-gram exactly when it is a window `s[i:i+n]` with `n` in
      `[lo, hi]` and at least 1, holding no `' '`. Other whitespace does not
      exclude a window. */
  lemma {:induction false} NgramMember(s: string, lo: int, hi: int, w: string)
    ensures w in NgramsUpTo(s, lo, hi) <==> exists t: Slot :: IsNgram(s, lo, hi, t) && w == Text(s, t)
  {
    var ts := Slots(s, lo, hi);
    var r := NgramsUpTo(s, lo, hi);
    if w in r {
      var k :| 0 <= k < |r| && r[k] == w;
      SlotsExact(s, lo, hi, ts[k]);
      assert IsNgram(s, lo, hi, ts[k]);
    }
    if exists t: Slot :: IsNgram(s, lo, hi, t) && w == Text(s, t) {
      var t: Slot :| IsNgram(s, lo, hi, t) && w == Text(s, t);
      SlotsExact(s, lo, hi, t);
      var k :| 0 <= k < |ts| && ts[k] == t;
      assert r[k] == w;
    }
  }

  /** The tokens are the texts of strictly ascending (length, offset) slots:
      by length, then by offset, with no token merged with an equal one. */
  lemma {:induction false} NgramOrder(s: string, lo: int, hi: int)
    ensures var ts := Slots(s, lo, hi);
      && Ascending(ts)
      && AllFit(s, ts)
      && |NgramsUpTo(s, lo, hi)| == |ts|
      && forall k :: 0 <= k < |ts| ==> NgramsUpTo(s, lo, hi)[k] == Text(s, ts[k])
  {
    SlotsAscending(s, lo, hi);
    SlotsFit(s, lo, hi);
  }

  /** A string shorter than `lo`, the empty string among them, has no n-grams. */
  lemma {:induction false} ShortHasNone(s: string, lo: int, hi: int)
    requires |s| < lo
    ensures NgramsUpTo(s, lo, hi) == []
    decreases hi - lo
  {
    if lo <= hi {
      ShortHasNone(s, lo, hi - 1);
      assert WindowSlots(s, hi, 0) == [];
    }
  }

  /** Without `' '`, every one of the `|s| - n + 1` windows of length `n` is kept. */
  lemma {:induction false} WindowsCount(s: string, n: nat, i: nat)
    requires n >= 1 && ' ' !in s && i + n <= |s| + 1
    ensures |WindowSlots(s, n, i)| == |s| - n + 1 - i
    decreases |s| - i
  {
    if i + n <= |s| {
      var w := s[i..i + n];
      assert ' ' !in w by {
        forall k | 0 <= k < |w| ensures w[k] != ' ' {
          assert w[k] == s[i + k];
        }
      }
      WindowsCount(s, n, i + 1);
    }
  }

  /** For a string without `' '` and `1 <= n <= |s|` there are exactly
      `|s| - n + 1` tokens of length `n`. */
  lemma {:induction false} NoSpaceWindows(s: string, n: int)
    requires ' ' !in s && 1 <= n <= |s|
    ensures |Windows(s, n)| == |s| - n + 1
  {
    WindowsCount(s, n, 0);
  }
}
