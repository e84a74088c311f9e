/** The two whitespace steps the string helpers share:
    `re.sub(r'\s\s+', ' ', s)` (or the same `str.replace` with `regex=True`)
    and `str.strip()`. Both are the generic run operations of `Runs` taken
    with Python's whitespace class. */
module Whitespace {
  import opened Chars
  import opened Runs

  /** No two adjacent characters of `s` are both whitespace. */
  predicate NoDoubleSpace(s: string) {
    NoAdjacent(s, IsSpace)
  }

  /** `s` neither starts nor ends with whitespace. */
  predicate Trimmed(s: string) {
    TrimmedBy(s, IsSpace)
  }

  /** `re.sub(r'\s\s+', ' ', s)`: the regex is tried at each position from the
      left, and greedily takes a whole run of two or more whitespace characters,
      which becomes one space. A single whitespace character is not touched. */
  function Collapse(s: string): (r: string)
    ensures |r| <= |s|
    ensures |s| > 0 ==> |r| > 0 && (IsSpace(r[0]) <==> IsSpace(s[0]))
    ensures |s| > 0 && !IsSpace(s[0]) ==> r[0] == s[0]
    ensures NoDoubleSpace(r)
    ensures forall i :: 0 <= i < |r| ==> r[i] == ' ' || r[i] in s
  {
    Squeeze(s, IsSpace, ' ')
  }

  /** `str.strip()`: whitespace removed from both ends. */
  function Strip(s: string): (r: string)
    ensures Trimmed(r)
    ensures |r| <= |s|
    ensures Trimmed(s) ==> r == s
    ensures NoDoubleSpace(s) ==> NoDoubleSpace(r)
    ensures forall i :: 0 <= i < |r| ==> r[i] in s
  {
    Trim(s, IsSpace)
  }

  /** `Collapse` leaves a string without double whitespace as it is. */
  lemma CollapseIdentity(s: string)
    requires NoDoubleSpace(s)
    ensures Collapse(s) == s
  {
    SqueezeIdentity(s, IsSpace, ' ');
  }

  /** `Collapse` touches whitespace only: the other characters come out
      unchanged and in order. */
  lemma CollapseKeepsText(s: string)
    ensures Keep(Collapse(s), NotSpace) == Keep(s, NotSpace)
  {
    SqueezeKeeps(s, IsSpace, ' ', NotSpace);
  }

  /** `Collapse` keeps the maximal runs of any character class that excludes
      whitespace (the whole words, say). */
  lemma CollapseKeepsRuns(s: string, p: char -> bool)
    requires forall c :: IsSpace(c) ==> !p(c)
    ensures RunsOf(Collapse(s), p) == RunsOf(s, p)
  {
    SqueezeKeepsRuns(s, IsSpace, ' ', p);
  }

  /** `Strip` removes a whitespace prefix and a whitespace suffix, nothing else. */
  lemma StripIsInfix(s: string)
    ensures exists i ::
      && 0 <= i <= |s| - |Strip(s)|
      && Strip(s) == s[i..i + |Strip(s)|]
      && All(s[..i], IsSpace)
      && All(s[i + |Strip(s)|..], IsSpace)
  {
    TrimIsInfix(s, IsSpace);
  }

  /** `Strip` keeps every non-whitespace character, in order. */
  lemma StripKeepsText(s: string)
    ensures Keep(Strip(s), NotSpace) == Keep(s, NotSpace)
  {
    TrimKeeps(s, IsSpace, NotSpace);
  }

  /** `Strip` keeps the maximal runs of any character class that excludes
      whitespace. */
  lemma StripKeepsRuns(s: string, p: char -> bool)
    requires forall c :: IsSpace(c) ==> !p(c)
    ensures RunsOf(Strip(s), p) == RunsOf(s, p)
  {
    TrimKeepsRuns(s, IsSpace, p);
  }
}
