/**
  The string machinery the engines rely on: Python's substring test `k in s`,
  `str.lower`, `str.strip`, and the regular-expression word boundary `\b`.
  Lower-casing and the word-character class are modelled for ASCII and Cyrillic,
  the alphabets the keywords and messages use; whitespace follows Python's
  `str.isspace` exactly.
*/
module Text {

  /** `k` occurs in `s` starting at index `i`. */
  predicate OccursAt(s: string, k: string, i: int) {
    0 <= i && i + |k| <= |s| && s[i..i + |k|] == k
  }

  /** Python's `k in s`. */
  predicate Contains(s: string, k: string) {
    exists i | 0 <= i <= |s| :: OccursAt(s, k, i)
  }

  /** The empty string occurs in every string. */
  lemma EmptyIsContained(s: string)
    ensures Contains(s, "")
  {
    assert OccursAt(s, "", 0);
  }

  /** A keyword holding a character the string lacks does not occur in it. */
  lemma AbsentChar(s: string, k: string, c: char)
    requires c in k && c !in s
    ensures !Contains(s, k)
  {
    var d :| 0 <= d < |k| && k[d] == c;
    forall i | 0 <= i <= |s|
      ensures !OccursAt(s, k, i)
    {
      if i + |k| <= |s| {
        assert s[i..i + |k|][d] == s[i + d];
      }
    }
  }

  /** The upper-case letters `str.lower` changes here: ASCII A-Z and Cyrillic Ѐ-Я. */
  predicate IsUpper(c: char) {
    ('A' <= c <= 'Z') || ('\U{0400}' <= c <= '\U{042F}')
  }

  /** `str.lower` on one character: ASCII A-Z, Cyrillic А-Я and Ѐ-Џ (Ё among them) go to lower case. */
  function LowerChar(c: char): (d: char)
    ensures !IsUpper(d)
    ensures !IsUpper(c) ==> d == c
    ensures IsSpace(d) == IsSpace(c) && IsWordChar(d) == IsWordChar(c)
  {
    if 'A' <= c <= 'Z' then (c as int + 32) as char
    else if '\U{0410}' <= c <= '\U{042F}' then (c as int + 32) as char
    else if '\U{0400}' <= c <= '\U{040F}' then (c as int + 80) as char
    else c
  }

  /**
    `str.lower`, character by character: no upper-case letter is left, every
    other character stays as it was, and whitespace and word characters stay
    where they were.
  */
  function Lower(s: string): (r: string)
    ensures |r| == |s|
    ensures forall i | 0 <= i < |s| :: r[i] == LowerChar(s[i])
    ensures forall i | 0 <= i < |r| :: !IsUpper(r[i])
    ensures forall i | 0 <= i < |s| :: !IsUpper(s[i]) ==> r[i] == s[i]
    ensures forall i | 0 <= i < |s| :: IsSpace(r[i]) == IsSpace(s[i]) && IsWordChar(r[i]) == IsWordChar(s[i])
  {
    seq(|s|, i requires 0 <= i < |s| => LowerChar(s[i]))
  }

  /** A string with no upper-case letter is its own lower-cased form. */
  lemma LowerFixes(s: string)
    requires forall i | 0 <= i < |s| :: !IsUpper(s[i])
    ensures Lower(s) == s
  {
  }

  /** Lower-casing twice is lower-casing once, so re-lowering an already lowered message changes nothing. */
  lemma LowerIdempotent(s: string)
    ensures Lower(Lower(s)) == Lower(s)
  {
  }

  /**
    Python's `str.isspace` for one character, which is also what `strip()` cuts
    and what `\s` matches. Whitespace is neither a word character nor a letter
    that lower-casing changes.
  */
  predicate IsSpace(c: char): (b: bool)
    ensures b ==> !IsWordChar(c) && !IsUpper(c)
  {
    || ('\U{9}' <= c <= '\U{D}')
    || ('\U{1C}' <= c <= '\U{20}')
    || c == '\U{85}' || c == '\U{A0}' || c == '\U{1680}'
    || ('\U{2000}' <= c <= '\U{200A}')
    || c == '\U{2028}' || c == '\U{2029}' || c == '\U{202F}' || c == '\U{205F}' || c == '\U{3000}'
  }

  /**
    The regular-expression class `\w` over the characters this model covers:
    ASCII letters, digits and underscore and the Cyrillic letters. Every
    upper-case letter `Lower` maps is a word character, and nothing past the
    Cyrillic block is.
  */
  predicate IsWordChar(c: char): (b: bool)
    ensures IsUpper(c) ==> b
    ensures ('a' <= c <= 'z') || ('0' <= c <= '9') || c == '_' ==> b
    ensures b ==> c < '\U{0500}'
  {
    || ('a' <= c <= 'z') || ('A' <= c <= 'Z') || ('0' <= c <= '9') || c == '_'
    || ('\U{0400}' <= c <= '\U{0481}') || ('\U{048A}' <= c <= '\U{04FF}')
  }

  /** `s` with its leading whitespace removed. */
  function TrimStart(s: string): (r: string)
    ensures |r| <= |s| && r == s[|s| - |r|..]
    ensures forall i | 0 <= i < |s| - |r| :: IsSpace(s[i])
    ensures |r| > 0 ==> !IsSpace(r[0])
  {
    if |s| > 0 && IsSpace(s[0]) then TrimStart(s[1..]) else s
  }

  /** `s` with its trailing whitespace removed. */
  function TrimEnd(s: string): (r: string)
    ensures |r| <= |s| && r == s[..|r|]
    ensures forall i | |r| <= i < |s| :: IsSpace(s[i])
    ensures |r| > 0 ==> !IsSpace(r[|r| - 1])
  {
    if |s| > 0 && IsSpace(s[|s| - 1]) then TrimEnd(s[..|s| - 1]) else s
  }

  /** Only whitespace lies outside `s[a..b]`. */
  predicate SpaceOutside(s: string, a: int, b: int) {
    && 0 <= a <= b <= |s|
    && (forall i | 0 <= i < a :: IsSpace(s[i]))
    && (forall i | b <= i < |s| :: IsSpace(s[i]))
  }

  /** Where `str.strip` cuts: the number of leading whitespace characters. */
  function StripStart(s: string): (a: nat)
    ensures a <= |s|
  {
    |s| - |TrimStart(s)|
  }

  /** Python's `str.strip()`: the slice of `s` between its leading and trailing whitespace. */
  function Strip(s: string): (r: string)
    ensures StripStart(s) + |r| <= |s|
    ensures r == s[StripStart(s)..StripStart(s) + |r|]
    ensures SpaceOutside(s, StripStart(s), StripStart(s) + |r|)
    ensures |r| > 0 ==> !IsSpace(r[0]) && !IsSpace(r[|r| - 1])
  {
    var front := TrimStart(s);
    var r := TrimEnd(front);
    TrimmedSlice(s, front, r);
    r
  }

  /** Cutting whitespace from the front of `s` and then from the back leaves a slice with whitespace outside it. */
  lemma TrimmedSlice(s: string, front: string, r: string)
    requires |front| <= |s| && front == s[|s| - |front|..]
    requires forall i | 0 <= i < |s| - |front| :: IsSpace(s[i])
    requires |r| <= |front| && r == front[..|r|]
    requires forall i | |r| <= i < |front| :: IsSpace(front[i])
    ensures var a := |s| - |front|; r == s[a..a + |r|] && SpaceOutside(s, a, a + |r|)
  {
    var a := |s| - |front|;
    assert forall i | a + |r| <= i < |s| :: s[i] == front[i - a];
  }

  /** A keyword whose first and last characters are not whitespace. */
  predicate SolidEnds(k: string) {
    |k| > 0 && !IsSpace(k[0]) && !IsSpace(k[|k| - 1])
  }

  /** A slice of a slice is a slice of the original. */
  lemma SliceOfSlice(s: string, a: int, b: int, i: int, j: int)
    requires 0 <= a <= b <= |s| && 0 <= i <= j <= b - a
    ensures s[a..b][i..j] == s[a + i..a + j]
  {
    assert forall p | 0 <= p < j - i :: s[a..b][i..j][p] == s[a + i + p];
  }

  /** A keyword with solid ends occurs in `s` exactly when it occurs in the part between the surrounding whitespace. */
  lemma ContainsInside(s: string, a: int, b: int, k: string)
    requires SpaceOutside(s, a, b) && SolidEnds(k)
    ensures Contains(s[a..b], k) <==> Contains(s, k)
  {
    if Contains(s[a..b], k) {
      var i :| 0 <= i <= b - a && OccursAt(s[a..b], k, i);
      SliceOfSlice(s, a, b, i, i + |k|);
      assert OccursAt(s, k, a + i);
    }
    if Contains(s, k) {
      var i :| 0 <= i <= |s| && OccursAt(s, k, i);
      OccursInside(s, a, b, k, i);
    }
  }

  /** An occurrence of a keyword with solid ends lies between the surrounding whitespace. */
  lemma OccursInside(s: string, a: int, b: int, k: string, i: int)
    requires SpaceOutside(s, a, b) && SolidEnds(k) && OccursAt(s, k, i)
    ensures a <= i && i + |k| <= b && OccursAt(s[a..b], k, i - a)
  {
    assert s[i] == k[0];
    assert s[i + |k| - 1] == k[|k| - 1];
    SliceOfSlice(s, a, b, i - a, i - a + |k|);
  }

  /**
    The regular expression `\bw\b` matches at `i`, for a word `w` whose first and
    last characters are word characters: nothing but a non-word character or the
    end of the string on either side of the occurrence.
  */
  predicate WordAt(s: string, w: string, i: int) {
    && OccursAt(s, w, i)
    && (i == 0 || !IsWordChar(s[i - 1]))
    && (i + |w| == |s| || !IsWordChar(s[i + |w|]))
  }

  /** `re.search(r"\bw\b", s)` finds a match. */
  predicate ContainsWord(s: string, w: string) {
    exists i | 0 <= i <= |s| :: WordAt(s, w, i)
  }

  /** A whole-word match between the whitespace is one in the whole string. */
  lemma WordInsideIsOutside(s: string, a: int, b: int, w: string, i: int)
    requires SpaceOutside(s, a, b) && SolidEnds(w)
    requires WordAt(s[a..b], w, i)
    ensures WordAt(s, w, a + i)
  {
    SliceOfSlice(s, a, b, i, i + |w|);
    if i == 0 && a > 0 {
      assert IsSpace(s[a - 1]);
    }
    if i + |w| == b - a && b < |s| {
      assert IsSpace(s[b]);
    }
  }

  /** A whole-word match in the whole string lies between the whitespace. */
  lemma WordOutsideIsInside(s: string, a: int, b: int, w: string, i: int)
    requires SpaceOutside(s, a, b) && SolidEnds(w)
    requires WordAt(s, w, i)
    ensures a <= i && i + |w| <= b && WordAt(s[a..b], w, i - a)
  {
    assert s[i] == w[0];
    assert s[i + |w| - 1] == w[|w| - 1];
    SliceOfSlice(s, a, b, i - a, i - a + |w|);
  }

  /** A whole-word match is unaffected by cutting surrounding whitespace: whitespace and the string's ends are both word boundaries. */
  lemma WordInside(s: string, a: int, b: int, w: string)
    requires SpaceOutside(s, a, b) && SolidEnds(w)
    ensures ContainsWord(s[a..b], w) <==> ContainsWord(s, w)
  {
    if ContainsWord(s[a..b], w) {
      var i :| 0 <= i <= b - a && WordAt(s[a..b], w, i);
      WordInsideIsOutside(s, a, b, w, i);
    }
    if ContainsWord(s, w) {
      var i :| 0 <= i <= |s| && WordAt(s, w, i);
      WordOutsideIsInside(s, a, b, w, i);
    }
  }

  /** Lower-casing keeps whitespace and non-whitespace apart, position by position. */
  lemma LowerKeepsSpace(s: string, a: int, b: int)
    requires SpaceOutside(s, a, b)
    ensures SpaceOutside(Lower(s), a, b)
    ensures Lower(s[a..b]) == Lower(s)[a..b]
  {
    assert forall i | 0 <= i < b - a :: Lower(s[a..b])[i] == LowerChar(s[a + i]) == Lower(s)[a..b][i];
  }

  /**
    `strip()` is fixed by where its cuts fall: any slice with only whitespace
    outside it and non-whitespace at both of its ends is the stripped string,
    and a string of whitespace alone strips to nothing.
  */
  lemma {:induction false} StripUnique(s: string, a: int, b: int)
    requires SpaceOutside(s, a, b)
    requires a < b ==> !IsSpace(s[a]) && !IsSpace(s[b - 1])
    ensures Strip(s) == s[a..b]
  {
    var r := Strip(s);
    var a', b' := StripStart(s), StripStart(s) + |Strip(s)|;
    if a < b {
      assert !IsSpace(s[a]) && !IsSpace(s[b - 1]);
      assert a' <= a && b <= b';
      assert r[0] == s[a'] && r[|r| - 1] == s[b' - 1];
      assert a' == a && b' == b;
    } else {
      assert forall i | 0 <= i < |s| :: IsSpace(s[i]);
    }
  }

  /** Where `strip()` cuts `s`: the bounds of its result, with whitespace outside and solid ends. */
  lemma StripBounds(s: string) returns (a: int, b: int)
    ensures SpaceOutside(s, a, b) && Strip(s) == s[a..b]
    ensures a < b ==> !IsSpace(s[a]) && !IsSpace(s[b - 1])
  {
    a := StripStart(s);
    b := a + |Strip(s)|;
    if a < b {
      assert Strip(s)[0] == s[a] && Strip(s)[|Strip(s)| - 1] == s[b - 1];
    }
  }

  /** Lower-casing keeps a non-whitespace character non-whitespace. */
  lemma LowerSolidAt(s: string, i: int)
    requires 0 <= i < |s| && !IsSpace(s[i])
    ensures !IsSpace(Lower(s)[i])
  {
  }

  /** Lower-casing and stripping commute: `s.strip().lower() == s.lower().strip()`. */
  lemma {:induction false} StripLowerCommute(s: string)
    ensures Strip(Lower(s)) == Lower(Strip(s))
  {
    var a, b := StripBounds(s);
    LowerKeepsSpace(s, a, b);
    if a < b {
      LowerSolidAt(s, a);
      LowerSolidAt(s, b - 1);
    }
    StripUnique(Lower(s), a, b);
  }


}
