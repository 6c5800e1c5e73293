/**
 Python string operations the scraper relies on: `str.replace` (left to
 right, non-overlapping, replace-all) and character counting.
 Strings are sequences of code points.
 */
module PyStr {

  /** Number of occurrences of the character `c` in `s` (`s.count(c)`). */
  function Count(c: char, s: string): nat
  {
    if |s| == 0 then 0 else (if s[0] == c then 1 else 0) + Count(c, s[1..])
  }

  lemma {:induction false} CountAppend(c: char, a: string, b: string)
    ensures Count(c, a + b) == Count(c, a) + Count(c, b)
  {
    if |a| == 0 {
      assert a + b == b;
    } else {
      assert (a + b)[1..] == a[1..] + b;
      CountAppend(c, a[1..], b);
    }
  }

  lemma {:induction false} CountZero(c: char, s: string)
    ensures Count(c, s) == 0 <==> c !in s
  {
    if |s| > 0 {
      CountZero(c, s[1..]);
      assert s == [s[0]] + s[1..];
    }
  }

  /** `p` occurs in `s` starting at index `i`. */
  ghost predicate OccursAt(s: string, p: string, i: int)
  {
    0 <= i && i + |p| <= |s| && s[i..i + |p|] == p
  }

  /** `p in s` for a substring `p`. */
  ghost predicate Occurs(s: string, p: string)
  {
    exists i :: OccursAt(s, p, i)
  }

  /**
   `s.replace(pat, rep)`: scanning left to right, every occurrence of `pat`
   that does not overlap an earlier replaced one becomes `rep`. An empty
   `pat` matches before every character and at the end. Every occurrence
   is replaced: a one-character pattern not in `rep` is gone afterwards.
   */
  function Replace(s: string, pat: string, rep: string): (r: string)
    ensures |pat| == 1 && pat[0] !in rep ==> pat[0] !in r
    decreases |s|
  {
    if |pat| == 0 then InsertAround(s, rep)
    else if |s| < |pat| then s
    else if s[..|pat|] == pat then rep + Replace(s[|pat|..], pat, rep)
    else [s[0]] + Replace(s[1..], pat, rep)
  }

  /** `s.replace("", rep)`: `rep` before each character and after the last. */
  function InsertAround(s: string, rep: string): string
  {
    if |s| == 0 then rep else rep + [s[0]] + InsertAround(s[1..], rep)
  }

  /** How many occurrences `Replace(s, pat, _)` replaces, for a non-empty `pat`. */
  function Matches(s: string, pat: string): nat
    requires |pat| > 0
    decreases |s|
  {
    if |s| < |pat| then 0
    else if s[..|pat|] == pat then 1 + Matches(s[|pat|..], pat)
    else Matches(s[1..], pat)
  }

  /** Each replacement changes the length by `|rep| - |pat|`. */
  lemma Distribute(m: int, d: int)
    ensures (1 + m) * d == d + m * d
  {
  }

  lemma {:induction false} ReplaceLength(s: string, pat: string, rep: string)
    requires |pat| > 0
    ensures |Replace(s, pat, rep)| == |s| + Matches(s, pat) * (|rep| - |pat|)
    decreases |s|
  {
    if |s| < |pat| {
    } else if s[..|pat|] == pat {
      var rest := s[|pat|..];
      ReplaceLength(rest, pat, rep);
      Distribute(Matches(rest, pat), |rep| - |pat|);
    } else {
      ReplaceLength(s[1..], pat, rep);
    }
  }

  /** No occurrence fits in a string shorter than the pattern. */
  lemma TooShortToOccur(s: string, p: string)
    requires |s| < |p|
    ensures !Occurs(s, p)
  {
    forall i ensures !OccursAt(s, p, i) {
    }
  }

  /** An occurrence is either at the front or further along. */
  lemma OccursStep(s: string, p: string)
    requires |s| >= |p| > 0
    ensures Occurs(s, p) <==> s[..|p|] == p || Occurs(s[1..], p)
  {
    assert s[..|p|] == p ==> OccursAt(s, p, 0);
    forall j | OccursAt(s[1..], p, j) ensures OccursAt(s, p, j + 1) {
      assert s[j + 1..j + 1 + |p|] == s[1..][j..j + |p|];
    }
    forall i | OccursAt(s, p, i) && i > 0 ensures OccursAt(s[1..], p, i - 1) {
      assert s[1..][i - 1..i - 1 + |p|] == s[i..i + |p|];
    }
  }

  /** `Replace` replaces something exactly when `pat` occurs in `s`. */
  lemma {:induction false} MatchesZeroIff(s: string, pat: string)
    requires |pat| > 0
    ensures Matches(s, pat) == 0 <==> !Occurs(s, pat)
    decreases |s|
  {
    if |s| < |pat| {
      TooShortToOccur(s, pat);
    } else {
      OccursStep(s, pat);
      if s[..|pat|] != pat {
        MatchesZeroIff(s[1..], pat);
      }
    }
  }

  /** Replacing a substring that does not occur leaves the string unchanged. */
  lemma {:induction false} ReplaceAbsent(s: string, pat: string, rep: string)
    requires |pat| > 0 && !Occurs(s, pat)
    ensures Replace(s, pat, rep) == s
    decreases |s|
  {
    if |s| >= |pat| {
      OccursStep(s, pat);
      ReplaceAbsent(s[1..], pat, rep);
      assert [s[0]] + s[1..] == s;
    }
  }

  /** A text free of the pattern's first character is left as it is. */
  lemma ReplaceFree(s: string, pat: string, rep: string)
    requires |pat| > 0 && pat[0] !in s
    ensures Replace(s, pat, rep) == s
  {
    AbsentFirstChar(s, pat);
    ReplaceAbsent(s, pat, rep);
  }

  /** A leading character that cannot start the pattern is copied through. */
  lemma ReplaceKeepHead(x: char, t: string, pat: string, rep: string)
    requires |pat| > 0 && x != pat[0]
    ensures Replace([x] + t, pat, rep) == [x] + Replace(t, pat, rep)
  {
    var s := [x] + t;
    assert s[1..] == t;
    if |s| >= |pat| {
      assert s[..|pat|][0] == x;
    }
  }

  /** A prefix free of the pattern's first character is copied through unchanged. */
  lemma {:induction false} ReplaceSkip(a: string, b: string, pat: string, rep: string)
    requires |pat| > 0 && pat[0] !in a
    ensures Replace(a + b, pat, rep) == a + Replace(b, pat, rep)
    decreases |a|
  {
    if |a| > 0 {
      var t := a[1..];
      assert a == [a[0]] + t;
      assert pat[0] !in t;
      assert a + b == [a[0]] + (t + b);
      ReplaceKeepHead(a[0], t + b, pat, rep);
      ReplaceSkip(t, b, pat, rep);
    } else {
      assert a + b == b;
    }
  }

  /** A count times a negative step is negative exactly when the count is positive. */
  lemma NegativeProduct(m: nat, d: int)
    requires d < 0
    ensures m * d <= 0 && (m * d < 0 <==> m > 0)
  {
  }

  /** A shrinking replacement shortens the string exactly when `pat` occurs. */
  lemma ShrinkingReplace(s: string, pat: string, rep: string)
    requires |rep| < |pat|
    ensures |Replace(s, pat, rep)| <= |s|
    ensures |Replace(s, pat, rep)| < |s| <==> Occurs(s, pat)
  {
    ReplaceLength(s, pat, rep);
    MatchesZeroIff(s, pat);
    NegativeProduct(Matches(s, pat), |rep| - |pat|);
  }

  /** A substring whose first character is absent from `s` does not occur. */
  lemma AbsentFirstChar(s: string, p: string)
    requires |p| > 0 && p[0] !in s
    ensures !Occurs(s, p)
  {
    forall i | 0 <= i && i + |p| <= |s| ensures !OccursAt(s, p, i) {
      assert s[i..i + |p|][0] == s[i];
    }
  }

  /** A one-character substring occurs exactly when the character does. */
  lemma CharOccurs(s: string, c: char)
    ensures c in s <==> Occurs(s, [c])
  {
    if c in s {
      var i :| 0 <= i < |s| && s[i] == c;
      assert s[i..i + 1] == [c];
      assert OccursAt(s, [c], i);
    }
    if Occurs(s, [c]) {
      var i :| OccursAt(s, [c], i);
      assert s[i] == s[i..i + 1][0];
    }
  }

  /** A substring of length two or more whose second character is absent from `s[1..]` does not occur. */
  lemma AbsentSecondChar(s: string, p: string)
    requires |p| >= 2 && |s| >= 1 && p[1] !in s[1..]
    ensures !Occurs(s, p)
  {
    forall i | 0 <= i && i + |p| <= |s| ensures !OccursAt(s, p, i) {
      assert s[i..i + |p|][1] == s[i + 1] == s[1..][i];
    }
  }

  /** Replacing a single character acts on each character separately. */
  lemma {:induction false} ReplaceCharAppend(a: string, b: string, c: char, rep: string)
    ensures Replace(a + b, [c], rep) == Replace(a, [c], rep) + Replace(b, [c], rep)
  {
    if |a| == 0 {
      assert a + b == b;
    } else {
      assert (a + b)[1..] == a[1..] + b;
      assert (a + b)[..1] == a[..1];
      ReplaceCharAppend(a[1..], b, c, rep);
    }
  }

  /**
   After replacing every `c` by `rep`, a character `x` occurs as often as it
   did outside the replaced `c`s, plus once per copy of `rep` for each `c`.
   */
  lemma {:induction false} ReplaceCharCount(s: string, c: char, rep: string, x: char)
    ensures Count(x, Replace(s, [c], rep)) ==
            (if x == c then 0 else Count(x, s)) + Count(c, s) * Count(x, rep)
  {
    if |s| > 0 {
      var tail := Replace(s[1..], [c], rep);
      ReplaceCharCount(s[1..], c, rep, x);
      var k := Count(c, s[1..]);
      var n := Count(x, rep);
      if s[0] == c {
        assert s[..1] == [c];
        CountAppend(x, rep, tail);
        assert Count(c, s) == 1 + k;
        Distribute(k, n);
      } else {
        assert s[..1] != [c];
        CountAppend(x, [s[0]], tail);
      }
    }
  }

  /** Deleting every `c` removes exactly the `c`s. */
  lemma ReplaceCharDelete(s: string, c: char, x: char)
    ensures Count(x, Replace(s, [c], "")) == if x == c then 0 else Count(x, s)
  {
    ReplaceCharCount(s, c, "", x);
    assert Count(x, "") == 0;
  }

  /** A string that starts with the replaced character starts its result with `rep`. */
  lemma ReplaceCharHead(c: char, b: string, rep: string)
    ensures Replace([c] + b, [c], rep) == rep + Replace(b, [c], rep)
  {
    var s := [c] + b;
    assert s[..1] == [c] && s[1..] == b;
  }

  /** Turning every `c` into `d` moves the count of `c` onto `d`. */
  lemma ReplaceCharSwap(s: string, c: char, d: char, x: char)
    requires c != d
    ensures Count(x, Replace(s, [c], [d])) ==
            if x == c then 0 else if x == d then Count(d, s) + Count(c, s) else Count(x, s)
  {
    ReplaceCharCount(s, c, [d], x);
    assert Count(x, [d]) == (if x == d then 1 else 0);
  }
}
