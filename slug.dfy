/**
 * The `createSlug` helper of the TabSet component:
 *
 *   createSlug(str) = str.trim().replace(/[^a-zA-Z1-3]+/gi, "-")
 *
 * JavaScript's `trim` is modelled as two recursive functions that drop
 * whitespace from either end, and the global regular-expression replace as
 * a left-to-right scan that turns each maximal run of characters outside
 * `[a-zA-Z1-3]` into one hyphen. Nothing is lower-cased, and no hyphen is
 * ever trimmed from the result.
 */
module Slug {

  /** The characters of the class `[a-zA-Z1-3]`: ASCII letters and the digits 1, 2, 3.
      The `i` flag adds nothing. Without the `u` flag, case-insensitive matching in
      JavaScript never maps a character outside ASCII to one inside it (the
      Canonicalize operation of the ECMAScript regular-expression semantics), so characters such as U+017F (long s)
      or U+212A (Kelvin sign) do not match the class, and the ASCII letters already
      hold both cases. */
  predicate IsAllowed(c: char) {
    ('a' <= c <= 'z') || ('A' <= c <= 'Z') || ('1' <= c <= '3')
  }

  /** The characters a slug can contain. */
  predicate IsSlugChar(c: char) {
    IsAllowed(c) || c == '-'
  }

  /** What `String.prototype.trim` removes: the ECMAScript WhiteSpace characters
      (TAB, VT, FF, ZWNBSP and the Unicode space separators) and LineTerminators
      (LF, CR, LINE SEPARATOR, PARAGRAPH SEPARATOR). */
  predicate IsJsWhitespace(c: char) {
    c == '\t' || c == '\n' || c == '\U{B}' || c == '\U{C}' || c == '\r' || c == ' '
    || c == '\U{A0}' || c == '\U{1680}' || ('\U{2000}' <= c <= '\U{200A}')
    || c == '\U{2028}' || c == '\U{2029}' || c == '\U{202F}' || c == '\U{205F}'
    || c == '\U{3000}' || c == '\U{FEFF}'
  }

  lemma WhitespaceIsDisallowed(c: char)
    requires IsJsWhitespace(c)
    ensures !IsSlugChar(c)
  {
  }

  /** `s` without its leading whitespace. */
  function TrimStart(s: string): string {
    if s != [] && IsJsWhitespace(s[0]) then TrimStart(s[1..]) else s
  }

  /** `s` without its trailing whitespace. */
  function TrimEnd(s: string): string {
    if s != [] && IsJsWhitespace(s[|s| - 1]) then TrimEnd(s[..|s| - 1]) else s
  }

  /** JavaScript's `s.trim()`. */
  function Trim(s: string): string {
    TrimEnd(TrimStart(s))
  }

  /** `s` without the run of disallowed characters at its front. */
  function SkipRun(s: string): (r: string)
    ensures |r| <= |s|
  {
    if s != [] && !IsAllowed(s[0]) then SkipRun(s[1..]) else s
  }

  /** `s.replace(/[^a-zA-Z1-3]+/gi, "-")`. At each position the leftmost match is the
      longest run of disallowed characters starting there; it is replaced by one hyphen
      and the scan resumes after it. An allowed character is copied. */
  function ReplaceRuns(s: string): string
    decreases |s|
  {
    if s == [] then []
    else
      var rest := if IsAllowed(s[0]) then s[1..] else SkipRun(s[1..]);
      [if IsAllowed(s[0]) then s[0] else '-'] + ReplaceRuns(rest)
  }

  /** `createSlug` (components/TabSet/index.tsx, line 13). */
  function CreateSlug(s: string): string {
    ReplaceRuns(Trim(s))
  }

  /** The allowed characters of `s`, in order. */
  function Allowed(s: string): string {
    if s == [] then [] else (if IsAllowed(s[0]) then [s[0]] else []) + Allowed(s[1..])
  }

  /** A string already in slug form: only slug characters, and no hyphen followed by another. */
  predicate IsCollapsed(s: string) {
    && (forall k :: 0 <= k < |s| ==> IsSlugChar(s[k]))
    && (forall k :: 0 <= k < |s| - 1 ==> s[k] == '-' ==> s[k + 1] != '-')
  }

  /** Reference definition of the run collapsing, one input character at a time:
      an allowed character is copied, a disallowed one becomes `-` when it starts a
      run (the character before it is allowed, or it is the first) and vanishes when
      it continues one. `prevAllowed` says whether the previous character was allowed
      (true at the start). */
  function CollapseFrom(prevAllowed: bool, s: string): string
    decreases |s|
  {
    if s == [] then []
    else
      (if IsAllowed(s[0]) then [s[0]] else if prevAllowed then ['-'] else [])
      + CollapseFrom(IsAllowed(s[0]), s[1..])
  }

  /** The number of maximal runs of disallowed characters in `s`, given whether the
      character before `s` was allowed. */
  function RunsFrom(prevAllowed: bool, s: string): nat
    decreases |s|
  {
    if s == [] then 0
    else (if !IsAllowed(s[0]) && prevAllowed then 1 else 0) + RunsFrom(IsAllowed(s[0]), s[1..])
  }

  // ----- Trim -----

  /** `TrimStart` drops exactly the leading whitespace: what it returns is a suffix of
      `s`, everything before that suffix is whitespace, and the suffix does not start
      with whitespace. */
  lemma {:induction false} TrimStartSpec(s: string)
    ensures |TrimStart(s)| <= |s| && TrimStart(s) == s[|s| - |TrimStart(s)|..]
    ensures forall k :: 0 <= k < |s| - |TrimStart(s)| ==> IsJsWhitespace(s[k])
    ensures TrimStart(s) == [] || !IsJsWhitespace(TrimStart(s)[0])
  {
    if s != [] && IsJsWhitespace(s[0]) {
      TrimStartSpec(s[1..]);
      assert forall k :: 1 <= k < |s| ==> s[k] == s[1..][k - 1];
    }
  }

  /** `TrimEnd` drops exactly the trailing whitespace. */
  lemma {:induction false} TrimEndSpec(s: string)
    ensures |TrimEnd(s)| <= |s| && TrimEnd(s) == s[..|TrimEnd(s)|]
    ensures forall k :: |TrimEnd(s)| <= k < |s| ==> IsJsWhitespace(s[k])
    ensures TrimEnd(s) == [] || !IsJsWhitespace(TrimEnd(s)[|TrimEnd(s)| - 1])
    decreases |s|
  {
    if s != [] && IsJsWhitespace(s[|s| - 1]) {
      TrimEndSpec(s[..|s| - 1]);
    }
  }

  /** `trim` removes whitespace from both ends and nothing else: the result is a
      slice of `s` framed by whitespace, and neither end of it is whitespace. */
  lemma TrimIsSlice(s: string)
    ensures exists i, j ::
              && 0 <= i <= j <= |s| && Trim(s) == s[i..j]
              && (forall k :: 0 <= k < i ==> IsJsWhitespace(s[k]))
              && (forall k :: j <= k < |s| ==> IsJsWhitespace(s[k]))
    ensures Trim(s) == [] || (!IsJsWhitespace(Trim(s)[0]) && !IsJsWhitespace(Trim(s)[|Trim(s)| - 1]))
  {
    var t := TrimStart(s);
    TrimStartSpec(s);
    TrimEndSpec(t);
    var i := |s| - |t|;
    var j := i + |TrimEnd(t)|;
    assert Trim(s) == s[i..j];
    assert forall k :: 0 <= k < i ==> IsJsWhitespace(s[k]);
    forall k | j <= k < |s| ensures IsJsWhitespace(s[k]) {
      assert s[k] == t[k - i];
    }
    if Trim(s) != [] {
      assert Trim(s)[0] == t[0];
    }
  }

  /** A string with no whitespace is its own trim. */
  lemma TrimNoWhitespace(s: string)
    requires forall k :: 0 <= k < |s| ==> !IsJsWhitespace(s[k])
    ensures Trim(s) == s
  {
  }

  /** Trimming drops only whitespace, which is never an allowed character. */
  lemma TrimKeepsAllowed(s: string)
    ensures Allowed(Trim(s)) == Allowed(s)
  {
    var t := TrimStart(s);
    TrimStartSpec(s);
    TrimEndSpec(t);
    AllowedOfSuffix(s, |s| - |t|);
    AllowedOfPrefix(t, |TrimEnd(t)|);
  }

  lemma {:induction false} AllowedOfSuffix(s: string, i: nat)
    requires i <= |s|
    requires forall k :: 0 <= k < i ==> !IsAllowed(s[k])
    ensures Allowed(s[i..]) == Allowed(s)
  {
    if i > 0 {
      AllowedOfSuffix(s[1..], i - 1);
      assert s[1..][i - 1..] == s[i..];
    }
  }

  lemma {:induction false} AllowedOfConcat(a: string, b: string)
    ensures Allowed(a + b) == Allowed(a) + Allowed(b)
  {
    if a != [] {
      assert (a + b)[1..] == a[1..] + b;
      AllowedOfConcat(a[1..], b);
    } else {
      assert a + b == b;
    }
  }

  lemma {:induction false} AllowedOfPrefix(s: string, j: nat)
    requires j <= |s|
    requires forall k :: j <= k < |s| ==> !IsAllowed(s[k])
    ensures Allowed(s[..j]) == Allowed(s)
  {
    assert s == s[..j] + s[j..];
    AllowedOfConcat(s[..j], s[j..]);
    AllowedOfSuffix(s[j..], |s| - j);
    assert s[j..][|s| - j..] == [];
  }

  // ----- Run replacement -----

  /** `SkipRun` drops exactly the leading run of disallowed characters. */
  lemma {:induction false} SkipRunSpec(s: string)
    ensures SkipRun(s) == s[|s| - |SkipRun(s)|..]
    ensures forall k :: 0 <= k < |s| - |SkipRun(s)| ==> !IsAllowed(s[k])
    ensures SkipRun(s) == [] || IsAllowed(SkipRun(s)[0])
  {
    if s != [] && !IsAllowed(s[0]) {
      SkipRunSpec(s[1..]);
      assert forall k :: 1 <= k < |s| ==> s[k] == s[1..][k - 1];
    }
  }

  /** The replacement is never longer than its input and holds only slug characters. */
  lemma {:induction false} ReplaceRunsAlphabet(s: string)
    ensures |ReplaceRuns(s)| <= |s|
    ensures forall k :: 0 <= k < |ReplaceRuns(s)| ==> IsSlugChar(ReplaceRuns(s)[k])
    decreases |s|
  {
    if s != [] {
      var rest := if IsAllowed(s[0]) then s[1..] else SkipRun(s[1..]);
      ReplaceRunsAlphabet(rest);
    }
  }

  /** The characters `[a-zA-Z1-3]` of the input survive the replacement unchanged,
      in order and in their own case; every other character is gone. */
  lemma {:induction false} ReplaceRunsKeepsAllowed(s: string)
    ensures Allowed(ReplaceRuns(s)) == Allowed(s)
    decreases |s|
  {
    if s == [] {
    } else if IsAllowed(s[0]) {
      ReplaceRunsKeepsAllowed(s[1..]);
      assert ([s[0]] + ReplaceRuns(s[1..]))[1..] == ReplaceRuns(s[1..]);
    } else {
      var rest := SkipRun(s[1..]);
      ReplaceRunsKeepsAllowed(rest);
      SkipRunSpec(s[1..]);
      AllowedOfSuffix(s[1..], |s[1..]| - |rest|);
      assert (['-'] + ReplaceRuns(rest))[1..] == ReplaceRuns(rest);
    }
  }

  /** A replacement of a string that starts with an allowed character starts with it too. */
  lemma ReplaceRunsHead(s: string)
    requires s != [] && IsAllowed(s[0])
    ensures ReplaceRuns(s) != [] && ReplaceRuns(s)[0] == s[0]
  {
  }

  /** Every hyphen of the replacement is the last character or is followed by an
      allowed one; in particular no two hyphens are adjacent. */
  lemma {:induction false} ReplaceRunsNoAdjacentHyphens(s: string)
    ensures forall k :: 0 <= k < |ReplaceRuns(s)| - 1 && ReplaceRuns(s)[k] == '-' ==> IsAllowed(ReplaceRuns(s)[k + 1])
    ensures IsCollapsed(ReplaceRuns(s))
    decreases |s|
  {
    ReplaceRunsAlphabet(s);
    if s == [] {
    } else if IsAllowed(s[0]) {
      ReplaceRunsNoAdjacentHyphens(s[1..]);
    } else {
      var rest := SkipRun(s[1..]);
      ReplaceRunsNoAdjacentHyphens(rest);
      SkipRunSpec(s[1..]);
      if rest != [] {
        ReplaceRunsHead(rest);
      }
    }
  }

  /** The input of the replacement that continues a run produces what the
      replacement produces after skipping the rest of that run. */
  lemma {:induction false} CollapseInRun(s: string)
    ensures CollapseFrom(false, s) == ReplaceRuns(SkipRun(s))
    decreases |s|, 1
  {
    if s == [] {
    } else if IsAllowed(s[0]) {
      CollapseMatches(s);
    } else {
      CollapseInRun(s[1..]);
    }
  }

  /** The replacement agrees with the character-by-character reference definition:
      each maximal run of disallowed characters becomes exactly one hyphen, at the
      position where the run starts. */
  lemma {:induction false} CollapseMatches(s: string)
    ensures ReplaceRuns(s) == CollapseFrom(true, s)
    decreases |s|, 0
  {
    if s == [] {
    } else if IsAllowed(s[0]) {
      CollapseMatches(s[1..]);
    } else {
      CollapseInRun(s[1..]);
    }
  }

  lemma {:induction false} CollapseCountsRuns(prevAllowed: bool, s: string)
    ensures multiset(CollapseFrom(prevAllowed, s))['-'] == RunsFrom(prevAllowed, s)
    decreases |s|
  {
    if s != [] {
      CollapseCountsRuns(IsAllowed(s[0]), s[1..]);
    }
  }

  /** The replacement holds one hyphen per maximal run of disallowed characters. */
  lemma ReplaceRunsCountsRuns(s: string)
    ensures multiset(ReplaceRuns(s))['-'] == RunsFrom(true, s)
  {
    CollapseMatches(s);
    CollapseCountsRuns(true, s);
  }

  /** The strings the replacement leaves unchanged are exactly those in slug form. */
  lemma {:induction false} ReplaceRunsFixedPoints(s: string)
    ensures ReplaceRuns(s) == s <==> IsCollapsed(s)
    decreases |s|
  {
    if IsCollapsed(s) {
      if s == [] {
      } else if IsAllowed(s[0]) {
        assert IsCollapsed(s[1..]) by {
          assert forall k :: 0 <= k < |s[1..]| ==> s[1..][k] == s[k + 1];
        }
        ReplaceRunsFixedPoints(s[1..]);
      } else {
        assert s[0] == '-';
        assert SkipRun(s[1..]) == s[1..] by {
          if |s| > 1 {
            assert s[1] != '-';
          }
        }
        assert IsCollapsed(s[1..]) by {
          assert forall k :: 0 <= k < |s[1..]| ==> s[1..][k] == s[k + 1];
        }
        ReplaceRunsFixedPoints(s[1..]);
      }
    } else {
      ReplaceRunsNoAdjacentHyphens(s);
    }
  }

  /** The replacement is empty exactly when its input is. */
  lemma ReplaceRunsEmpty(s: string)
    ensures ReplaceRuns(s) == [] <==> s == []
  {
  }

  // ----- createSlug -----

  /** Every character of a slug is an ASCII letter, one of the digits 1, 2, 3, or a
      hyphen, and a slug is never longer than the trimmed input. */
  lemma CreateSlugAlphabet(s: string)
    ensures |CreateSlug(s)| <= |Trim(s)| <= |s|
    ensures forall k :: 0 <= k < |CreateSlug(s)| ==> IsSlugChar(CreateSlug(s)[k])
  {
    ReplaceRunsAlphabet(Trim(s));
    TrimStartSpec(s);
    TrimEndSpec(TrimStart(s));
  }

  /** The characters `[a-zA-Z1-3]` of the whole input reach the slug unchanged and in
      order; no other character of the input does (digits 0 and 4 to 9 included). */
  lemma CreateSlugKeepsAllowed(s: string)
    ensures Allowed(CreateSlug(s)) == Allowed(Trim(s)) == Allowed(s)
  {
    ReplaceRunsKeepsAllowed(Trim(s));
    TrimKeepsAllowed(s);
  }

  /** A slug never holds two adjacent hyphens. */
  lemma CreateSlugNoAdjacentHyphens(s: string)
    ensures IsCollapsed(CreateSlug(s))
    ensures forall k :: 0 <= k < |CreateSlug(s)| - 1 ==> !(CreateSlug(s)[k] == '-' && CreateSlug(s)[k + 1] == '-')
  {
    ReplaceRunsNoAdjacentHyphens(Trim(s));
  }

  /** A slug holds one hyphen per maximal run of disallowed characters of the trimmed input. */
  lemma CreateSlugCountsRuns(s: string)
    ensures multiset(CreateSlug(s))['-'] == RunsFrom(true, Trim(s))
  {
    ReplaceRunsCountsRuns(Trim(s));
  }

  /** The strings `createSlug` leaves unchanged are exactly those in slug form. */
  lemma CreateSlugFixedPoints(s: string)
    ensures CreateSlug(s) == s <==> IsCollapsed(s)
  {
    if IsCollapsed(s) {
      forall k | 0 <= k < |s| ensures !IsJsWhitespace(s[k]) {
        if IsJsWhitespace(s[k]) {
          WhitespaceIsDisallowed(s[k]);
        }
      }
      TrimNoWhitespace(s);
      ReplaceRunsFixedPoints(s);
    } else {
      CreateSlugNoAdjacentHyphens(s);
    }
  }

  /** `createSlug` is idempotent. */
  lemma CreateSlugIdempotent(s: string)
    ensures CreateSlug(CreateSlug(s)) == CreateSlug(s)
  {
    CreateSlugNoAdjacentHyphens(s);
    CreateSlugFixedPoints(CreateSlug(s));
  }

  /** The slug is empty exactly when the input is empty or all whitespace. */
  lemma CreateSlugEmpty(s: string)
    ensures CreateSlug(s) == [] <==> forall k :: 0 <= k < |s| ==> IsJsWhitespace(s[k])
  {
    ReplaceRunsEmpty(Trim(s));
    var t := TrimStart(s);
    TrimStartSpec(s);
    TrimEndSpec(t);
    if Trim(s) == [] {
      assert t == [];
    } else {
      TrimIsSlice(s);
      assert s[|s| - |t|] == t[0];
    }
  }

  // ----- decomposition, for worked inputs -----

  /** A word of allowed characters is copied through the replacement. */
  lemma {:induction false} ReplaceRunsWord(w: string, s: string)
    requires forall k :: 0 <= k < |w| ==> IsAllowed(w[k])
    ensures ReplaceRuns(w + s) == w + ReplaceRuns(s)
  {
    if w != [] {
      assert (w + s)[1..] == w[1..] + s;
      ReplaceRunsWord(w[1..], s);
    } else {
      assert w + s == s;
    }
  }

  lemma {:induction false} SkipRunOver(d: string, s: string)
    requires forall k :: 0 <= k < |d| ==> !IsAllowed(d[k])
    requires s == [] || IsAllowed(s[0])
    ensures SkipRun(d + s) == s
  {
    if d != [] {
      assert (d + s)[1..] == d[1..] + s;
      SkipRunOver(d[1..], s);
    } else {
      assert d + s == s;
    }
  }

  /** A whole run of disallowed characters becomes one hyphen. */
  lemma ReplaceRunsRun(d: string, s: string)
    requires d != [] && forall k :: 0 <= k < |d| ==> !IsAllowed(d[k])
    requires s == [] || IsAllowed(s[0])
    ensures ReplaceRuns(d + s) == "-" + ReplaceRuns(s)
  {
    assert (d + s)[1..] == d[1..] + s;
    SkipRunOver(d[1..], s);
  }
}
