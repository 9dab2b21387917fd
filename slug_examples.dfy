/**
 * Worked inputs of `createSlug`. A name is written as the concatenation of its words
 * (runs of allowed characters) and its separators (runs of disallowed characters);
 * general lemmas give the slug of each shape, and the worked inputs instantiate them.
 */
module SlugExamples {
  import opened Slug

  /** A non-empty run of characters the slug keeps. */
  predicate IsWord(w: string) {
    w != [] && forall k :: 0 <= k < |w| ==> IsAllowed(w[k])
  }

  /** A non-empty run of characters the slug replaces. */
  predicate IsRun(d: string) {
    d != [] && forall k :: 0 <= k < |d| ==> !IsAllowed(d[k])
  }

  lemma AllowedIsNotWhitespace(c: char)
    requires IsAllowed(c)
    ensures !IsJsWhitespace(c)
  {
    if IsJsWhitespace(c) {
      WhitespaceIsDisallowed(c);
    }
  }

  /** A string with no whitespace at either end is its own trim. */
  lemma TrimNothing(x: string)
    requires x != [] && !IsJsWhitespace(x[0]) && !IsJsWhitespace(x[|x| - 1])
    ensures Trim(x) == x
  {
  }

  /** A string with no whitespace at either end, padded with one space on each side,
      trims back to itself. */
  lemma TrimPadded(x: string)
    requires x != [] && !IsJsWhitespace(x[0]) && !IsJsWhitespace(x[|x| - 1])
    ensures Trim(" " + x + " ") == x
  {
    assert (" " + x + " ")[1..] == x + " ";
    assert (x + " ")[0] == x[0];
    assert TrimStart(" " + x + " ") == x + " ";
    assert (x + " ")[..|x|] == x;
    assert TrimEnd(x + " ") == TrimEnd(x);
  }

  /** A word followed by a separator: the separator becomes one trailing hyphen. */
  lemma WordRun(a: string, d: string)
    requires IsWord(a) && IsRun(d)
    ensures ReplaceRuns(a + d) == a + "-"
  {
    ReplaceRunsRun(d, "");
    assert d + "" == d;
    ReplaceRunsWord(a, d);
  }

  /** Two words joined by a separator. */
  lemma WordRunWord(a: string, d: string, b: string)
    requires IsWord(a) && IsRun(d) && IsWord(b)
    ensures ReplaceRuns(a + d + b) == a + "-" + b
  {
    assert ReplaceRuns(b) == b by {
      ReplaceRunsWord(b, "");
      assert b + "" == b;
    }
    ReplaceRunsRun(d, b);
    ReplaceRunsWord(a, d + b);
    assert a + d + b == a + (d + b);
  }

  /** Two words, each followed by a separator. */
  lemma WordRunWordRun(a: string, d1: string, b: string, d2: string)
    requires IsWord(a) && IsRun(d1) && IsWord(b) && IsRun(d2)
    ensures ReplaceRuns(a + d1 + b + d2) == a + "-" + b + "-"
  {
    WordRun(b, d2);
    ReplaceRunsRun(d1, b + d2);
    ReplaceRunsWord(a, d1 + (b + d2));
    assert a + d1 + b + d2 == a + (d1 + (b + d2));
  }

  /** A separator followed by two words joined by a separator. */
  lemma RunWordRunWord(d1: string, b: string, d2: string, c: string)
    requires IsRun(d1) && IsWord(b) && IsRun(d2) && IsWord(c)
    ensures ReplaceRuns(d1 + (b + d2 + c)) == "-" + (b + "-" + c)
  {
    WordRunWord(b, d2, c);
    assert (b + d2 + c)[0] == b[0];
    ReplaceRunsRun(d1, b + d2 + c);
  }

  /** Regrouping of a five-piece concatenation, kept apart from the facts about the
      pieces. */
  lemma Regroup(a: string, d1: string, b: string, d2: string, c: string)
    ensures a + d1 + b + d2 + c == a + (d1 + (b + d2 + c))
  {
  }

  /** Three words joined by two separators. */
  lemma ThreeWords(a: string, d1: string, b: string, d2: string, c: string)
    requires IsWord(a) && IsRun(d1) && IsWord(b) && IsRun(d2) && IsWord(c)
    ensures ReplaceRuns(a + d1 + b + d2 + c) == a + "-" + b + "-" + c
  {
    RunWordRunWord(d1, b, d2, c);
    ReplaceRunsWord(a, d1 + (b + d2 + c));
    Regroup(a, d1, b, d2, c);
    Regroup(a, "-", b, "-", c);
  }

  /** Slug of two words joined by a separator. */
  lemma TwoWordSlug(a: string, d: string, b: string)
    requires IsWord(a) && IsRun(d) && IsWord(b)
    ensures CreateSlug(a + d + b) == a + "-" + b
  {
    AllowedIsNotWhitespace(a[0]);
    AllowedIsNotWhitespace(b[|b| - 1]);
    TrimNothing(a + d + b);
    WordRunWord(a, d, b);
  }

  /** Slug of three words joined by separators. */
  lemma ThreeWordSlug(a: string, d1: string, b: string, d2: string, c: string)
    requires IsWord(a) && IsRun(d1) && IsWord(b) && IsRun(d2) && IsWord(c)
    ensures CreateSlug(a + d1 + b + d2 + c) == a + "-" + b + "-" + c
  {
    AllowedIsNotWhitespace(a[0]);
    AllowedIsNotWhitespace(c[|c| - 1]);
    TrimNothing(a + d1 + b + d2 + c);
    ThreeWords(a, d1, b, d2, c);
  }

  /** Slug of a space-padded name made of two words each followed by a separator that
      does not end in whitespace: the padding is trimmed, the last separator is not. */
  lemma PaddedTwoWordSlug(a: string, d1: string, b: string, d2: string)
    requires IsWord(a) && IsRun(d1) && IsWord(b) && IsRun(d2)
    requires !IsJsWhitespace(d2[|d2| - 1])
    ensures CreateSlug(" " + a + d1 + b + d2 + " ") == a + "-" + b + "-"
  {
    var x := a + d1 + b + d2;
    AllowedIsNotWhitespace(a[0]);
    assert x[0] == a[0] && x[|x| - 1] == d2[|d2| - 1];
    TrimPadded(x);
    assert " " + a + d1 + b + d2 + " " == " " + x + " ";
    WordRunWordRun(a, d1, b, d2);
  }

  /** The tab-set name of the component's test, " Lorem !@#$ ipsum !! ": the slug keeps
      its case and its trailing hyphen. */
  lemma LoremIpsumExample()
    ensures CreateSlug(" " + "Lorem" + " !@#$ " + "ipsum" + " !!" + " ") == "Lorem" + "-" + "ipsum" + "-"
  {
    PaddedTwoWordSlug("Lorem", " !@#$ ", "ipsum", " !!");
  }

  /** Digits other than 1, 2 and 3 count as separators: "Area 51" becomes "Area-1". */
  lemma DigitsExample()
    ensures CreateSlug("Area" + " 5" + "1") == "Area" + "-" + "1"
  {
    TwoWordSlug("Area", " 5", "1");
  }

  /** Slug of a separator followed by three words joined by separators, with no
      whitespace at either end: the leading separator becomes a leading hyphen. */
  lemma LeadingRunSlug(d0: string, a: string, d1: string, b: string, d2: string, c: string)
    requires IsRun(d0) && !IsJsWhitespace(d0[0])
    requires IsWord(a) && IsRun(d1) && IsWord(b) && IsRun(d2) && IsWord(c)
    ensures CreateSlug(d0 + a + d1 + b + d2 + c) == "-" + a + "-" + b + "-" + c
  {
    var t := a + d1 + b + d2 + c;
    assert ReplaceRuns(t) == a + "-" + b + "-" + c by {
      ThreeWords(a, d1, b, d2, c);
    }
    assert ReplaceRuns(d0 + t) == "-" + (a + "-" + b + "-" + c) by {
      assert t[0] == a[0];
      ReplaceRunsRun(d0, t);
    }
    assert Trim(d0 + t) == d0 + t by {
      AllowedIsNotWhitespace(c[|c| - 1]);
      assert (d0 + t)[0] == d0[0] && (d0 + t)[|d0 + t| - 1] == c[|c| - 1];
      TrimNothing(d0 + t);
    }
    assert d0 + a + d1 + b + d2 + c == d0 + t;
    assert "-" + a + "-" + b + "-" + c == "-" + (a + "-" + b + "-" + c);
  }

  /** A leading punctuation mark becomes a leading hyphen, and the hyphens of the input
      are disallowed characters like any other: "(draft) tab--one" becomes "-draft-tab-one". */
  lemma LeadingHyphenExample()
    ensures CreateSlug("(" + "draft" + ") " + "tab" + "--" + "one") == "-" + "draft" + "-" + "tab" + "-" + "one"
  {
    LeadingRunSlug("(", "draft", ") ", "tab", "--", "one");
  }
}
