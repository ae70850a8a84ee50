/**
 * The filename sanitiser shared by the extension (`sanitizeFilename`) and
 * both command-line scripts (`sanitize_filename`): forbidden characters
 * become '-', every whitespace run becomes one space, and both ends are
 * trimmed.
 */
module Sanitizer {
  import opened Text

  /** The characters the first pass replaces: `/ : * ? " < > |` and newline. */
  predicate IsForbidden(c: char) {
    c == '/' || c == ':' || c == '*' || c == '?' || c == '"' || c == '<' || c == '>' || c == '|' || c == '\n'
  }

  /** First pass: each forbidden character becomes '-', every other character stays in place. */
  function ReplaceForbidden(s: string): (r: string)
    ensures |r| == |s|
    ensures forall i :: 0 <= i < |s| ==> !IsForbidden(r[i])
    ensures forall i :: 0 <= i < |s| && !IsForbidden(s[i]) ==> r[i] == s[i]
    ensures forall i :: 0 <= i < |s| && IsForbidden(s[i]) ==> r[i] == '-'
  {
    seq(|s|, i requires 0 <= i < |s| => if IsForbidden(s[i]) then '-' else s[i])
  }

  /** Every whitespace character is a plain space and no two whitespace characters are adjacent. */
  predicate SingleSpaced(s: string) {
    && (forall i :: 0 <= i < |s| && IsWhitespace(s[i]) ==> s[i] == ' ')
    && (forall i :: 0 <= i < |s| - 1 ==> !(IsWhitespace(s[i]) && IsWhitespace(s[i + 1])))
  }

  /** The non-whitespace characters of `s`, in order. */
  function Visible(s: string): string
    decreases |s|
  {
    if s == [] then [] else (if IsWhitespace(s[0]) then [] else [s[0]]) + Visible(s[1..])
  }

  /**
   * Second pass, `\s+` -> " ": each maximal whitespace run becomes a single
   * space. The result is single-spaced, keeps the visible characters, and
   * starts with a space exactly when the input starts with whitespace.
   */
  function CollapseWhitespace(s: string): (r: string)
    ensures |r| <= |s|
    ensures SingleSpaced(r)
    ensures forall i :: 0 <= i < |r| ==> r[i] == ' ' || r[i] in s
    ensures Visible(r) == Visible(s)
    ensures s != [] && !IsWhitespace(s[0]) ==> r != [] && r[0] == s[0]
    decreases |s|
  {
    if s == [] then []
    else if IsWhitespace(s[0]) then
      var t := TrimStart(s);
      var c := CollapseWhitespace(t);
      RunStepVisible(s, t, c);
      RunStepSpaced(s, t, c);
      TrimStartSuffix(s);
      PrependFrom(' ', c, s, |s| - |t|);
      [' '] + c
    else
      var c := CollapseWhitespace(s[1..]);
      CharStepVisible(s, c);
      PrependFrom(s[0], c, s, 1);
      [s[0]] + c
  }

  /** A whitespace run followed by a visible character (or nothing) collapses to one space. */
  lemma CollapseRun(w: string, b: string)
    requires w != [] && forall i :: 0 <= i < |w| ==> IsWhitespace(w[i])
    requires b == [] || !IsWhitespace(b[0])
    ensures CollapseWhitespace(w + b) == [' '] + CollapseWhitespace(b)
  {
    TrimStartRun(w, b);
    assert (w + b)[0] == w[0];
    CollapseSpaceHead(w + b);
  }

  /** A text starting with whitespace collapses to one space and the collapse of the rest after the run. */
  lemma CollapseSpaceHead(s: string)
    requires s != [] && IsWhitespace(s[0])
    ensures CollapseWhitespace(s) == [' '] + CollapseWhitespace(TrimStart(s))
  {
  }

  /** A text starting with a visible character keeps it and collapses the rest. */
  lemma CollapseCharHead(s: string)
    requires s != [] && !IsWhitespace(s[0])
    ensures CollapseWhitespace(s) == [s[0]] + CollapseWhitespace(s[1..])
  {
  }

  /** Collapsing works piece by piece across a boundary that follows a visible character. */
  lemma {:induction false} CollapseAppend(a: string, b: string)
    requires a == [] || !IsWhitespace(a[|a| - 1])
    ensures CollapseWhitespace(a + b) == CollapseWhitespace(a) + CollapseWhitespace(b)
    decreases |a|
  {
    if a == [] {
      assert a + b == b;
    } else if IsWhitespace(a[0]) {
      var t := TrimStart(a);
      TrimStartSuffix(a);
      TrimStartAppend(a, b);
      assert t != [] && t[|t| - 1] == a[|a| - 1];
      CollapseAppend(t, b);
      CollapseSpaceHead(a);
      assert (a + b)[0] == a[0];
      CollapseSpaceHead(a + b);
      Associative([' '], CollapseWhitespace(t), CollapseWhitespace(b));
    } else {
      assert (a + b)[0] == a[0];
      assert (a + b)[1..] == a[1..] + b;
      CollapseAppend(a[1..], b);
      CollapseCharHead(a);
      CollapseCharHead(a + b);
      Associative([a[0]], CollapseWhitespace(a[1..]), CollapseWhitespace(b));
    }
  }

  /** A text without whitespace is left as it is. */
  lemma CollapseWord(v: string)
    requires forall i :: 0 <= i < |v| ==> !IsWhitespace(v[i])
    ensures CollapseWhitespace(v) == v
  {
    CollapseSingleSpaced(v);
  }

  /**
   * `\s+` becomes one space: a maximal whitespace run between two parts of
   * a text is replaced by a single space, and each part collapses on its own.
   */
  lemma CollapseBetween(a: string, w: string, b: string)
    requires a == [] || !IsWhitespace(a[|a| - 1])
    requires w != [] && forall i :: 0 <= i < |w| ==> IsWhitespace(w[i])
    requires b == [] || !IsWhitespace(b[0])
    ensures CollapseWhitespace(a + w + b) == CollapseWhitespace(a) + " " + CollapseWhitespace(b)
  {
    var c, d := CollapseWhitespace(a), CollapseWhitespace(b);
    CollapseAppend(a, w + b);
    CollapseRun(w, b);
    Associative(a, w, b);
    Associative(c, " ", d);
  }

  /** Concatenation is associative. */
  lemma Associative(x: string, y: string, z: string)
    ensures x + y + z == x + (y + z)
  {
  }

  /** Dropping a leading whitespace run and putting one space in its place keeps the visible characters. */
  lemma RunStepVisible(s: string, t: string, c: string)
    requires s != [] && IsWhitespace(s[0])
    requires t == TrimStart(s)
    requires Visible(c) == Visible(t)
    ensures |t| < |s| && Visible([' '] + c) == Visible(s)
  {
    VisibleTrimStart(s);
    assert ([' '] + c)[1..] == c;
  }

  /** Leading whitespace is invisible. */
  lemma {:induction false} VisibleTrimStart(s: string)
    ensures Visible(TrimStart(s)) == Visible(s)
    decreases |s|
  {
    if s != [] && IsWhitespace(s[0]) {
      VisibleTrimStart(s[1..]);
    }
  }

  /** Trailing whitespace is invisible. */
  lemma {:induction false} VisibleTrimEnd(s: string)
    ensures Visible(TrimEnd(s)) == Visible(s)
    decreases |s|
  {
    if s != [] && IsWhitespace(s[|s| - 1]) {
      var n := |s| - 1;
      VisibleTrimEnd(s[..n]);
      assert s == s[..n] + [s[n]];
      VisibleAppend(s[..n], [s[n]]);
      assert Visible([s[n]]) == [] by {
        assert [s[n]][1..] == [];
      }
    }
  }

  /** The collapsed rest of a whitespace run starts with a visible character, so one space in front keeps it single-spaced. */
  lemma RunStepSpaced(s: string, t: string, c: string)
    requires t == TrimStart(s)
    requires |c| <= |t| && SingleSpaced(c)
    requires t != [] && !IsWhitespace(t[0]) ==> c != [] && c[0] == t[0]
    ensures SingleSpaced([' '] + c)
  {
    assert t == [] || !IsWhitespace(t[0]);
    SpaceThenSingleSpaced(c);
  }

  /** A space in front of a single-spaced string that does not start with whitespace keeps it single-spaced. */
  lemma SpaceThenSingleSpaced(c: string)
    requires SingleSpaced(c) && (c == [] || !IsWhitespace(c[0]))
    ensures SingleSpaced([' '] + c)
  {
    var r := [' '] + c;
    assert forall i :: 0 < i < |r| ==> r[i] == c[i - 1];
  }

  /** A visible first character kept in front of the collapsed rest keeps the visible characters. */
  lemma CharStepVisible(s: string, c: string)
    requires s != [] && !IsWhitespace(s[0])
    requires Visible(c) == Visible(s[1..])
    ensures Visible([s[0]] + c) == Visible(s)
  {
    assert ([s[0]] + c)[1..] == c;
  }

  /**
   * Characters that are spaces or come from the suffix `s[k..]`, with a
   * first character that is a space or comes from `s`, all are spaces or
   * come from `s`.
   */
  lemma PrependFrom(h: char, c: string, s: string, k: nat)
    requires k <= |s| && (h == ' ' || h in s)
    requires forall i :: 0 <= i < |c| ==> c[i] == ' ' || c[i] in s[k..]
    ensures forall i :: 0 <= i < |c| + 1 ==> ([h] + c)[i] == ' ' || ([h] + c)[i] in s
  {
    var r := [h] + c;
    forall i | 0 <= i < |r|
      ensures r[i] == ' ' || r[i] in s
    {
      if i > 0 && r[i] != ' ' {
        assert r[i] == c[i - 1];
        var j :| 0 <= j < |s| - k && s[k..][j] == c[i - 1];
        assert s[k + j] == r[i];
      }
    }
  }

  /** A run of whitespace has no visible characters. */
  lemma {:induction false} VisibleOfWhitespace(w: string)
    requires forall i :: 0 <= i < |w| ==> IsWhitespace(w[i])
    ensures Visible(w) == []
    decreases |w|
  {
    if w != [] {
      VisibleOfWhitespace(w[1..]);
    }
  }

  /** `Visible` distributes over concatenation. */
  lemma {:induction false} VisibleAppend(a: string, b: string)
    ensures Visible(a + b) == Visible(a) + Visible(b)
    decreases |a|
  {
    if a == [] {
      assert a + b == b;
    } else {
      assert (a + b)[0] == a[0];
      assert (a + b)[1..] == a[1..] + b;
      VisibleAppend(a[1..], b);
    }
  }

  /** The whole sanitiser: replace, collapse, trim. */
  function Sanitize(s: string): string {
    Trim(CollapseWhitespace(ReplaceForbidden(s)))
  }

  /** What a sanitised filename looks like. */
  predicate IsClean(t: string) {
    && (forall i :: 0 <= i < |t| ==> !IsForbidden(t[i]))
    && SingleSpaced(t)
    && (t == [] || (!IsWhitespace(t[0]) && !IsWhitespace(t[|t| - 1])))
  }

  /**
   * The sanitiser's output contains no forbidden character, has no
   * whitespace at either end, uses only plain spaces, never two in a row,
   * keeps every visible character of the replaced input in order, and is
   * never longer than the input.
   */
  lemma SanitizeSpec(s: string)
    ensures IsClean(Sanitize(s))
    ensures Visible(Sanitize(s)) == Visible(ReplaceForbidden(s))
    ensures |Sanitize(s)| <= |s|
  {
    var x := ReplaceForbidden(s);
    var c := CollapseWhitespace(x);
    NoForbiddenFrom(c, x);
    TrimKeepsShape(c);
  }

  /** Characters that are spaces or come from a text without forbidden characters are not forbidden. */
  lemma NoForbiddenFrom(c: string, x: string)
    requires forall i :: 0 <= i < |x| ==> !IsForbidden(x[i])
    requires forall i :: 0 <= i < |c| ==> c[i] == ' ' || c[i] in x
    ensures forall i :: 0 <= i < |c| ==> !IsForbidden(c[i])
  {
    forall i | 0 <= i < |c|
      ensures !IsForbidden(c[i])
    {
      if c[i] != ' ' {
        var j :| 0 <= j < |x| && x[j] == c[i];
      }
    }
  }

  /** Trimming a single-spaced string without forbidden characters gives a clean string with the same visible characters. */
  lemma TrimKeepsShape(c: string)
    requires SingleSpaced(c)
    requires forall i :: 0 <= i < |c| ==> !IsForbidden(c[i])
    ensures IsClean(Trim(c))
    ensures Visible(Trim(c)) == Visible(c)
  {
    TrimIsClean(c);
    VisibleTrim(c);
  }

  /** Trimming a single-spaced text free of forbidden characters leaves a clean one. */
  lemma TrimIsClean(c: string)
    requires SingleSpaced(c)
    requires forall i :: 0 <= i < |c| ==> !IsForbidden(c[i])
    ensures IsClean(Trim(c))
  {
    var a := LeadingWhitespace(c);
    TrimSlice(c);
    SliceShape(c, a, a + |Trim(c)|);
  }

  /** A slice of a single-spaced string without forbidden characters is one too. */
  lemma SliceShape(c: string, a: nat, b: nat)
    requires a <= b <= |c|
    requires SingleSpaced(c)
    requires forall i :: 0 <= i < |c| ==> !IsForbidden(c[i])
    ensures SingleSpaced(c[a..b])
    ensures forall i :: 0 <= i < b - a ==> !IsForbidden(c[a..b][i])
  {
    assert forall i :: 0 <= i < b - a ==> c[a..b][i] == c[a + i];
  }

  /** Trimming removes only whitespace, so the visible characters stay. */
  lemma VisibleTrim(c: string)
    ensures Visible(Trim(c)) == Visible(c)
  {
    VisibleTrimStart(c);
    VisibleTrimEnd(TrimStart(c));
  }

  /** A clean string passes through the sanitiser unchanged. */
  lemma SanitizeClean(t: string)
    requires IsClean(t)
    ensures Sanitize(t) == t
  {
    assert ReplaceForbidden(t) == t;
    CollapseSingleSpaced(t);
    TrimNoop(t);
  }

  /** Collapsing leaves a single-spaced string as it is. */
  lemma {:induction false} CollapseSingleSpaced(t: string)
    requires SingleSpaced(t)
    ensures CollapseWhitespace(t) == t
    decreases |t|
  {
    if t != [] {
      SingleSpacedTail(t);
      CollapseSingleSpaced(t[1..]);
      if IsWhitespace(t[0]) {
        assert TrimStart(t[1..]) == t[1..];
        assert TrimStart(t) == t[1..];
      }
      assert t == [t[0]] + t[1..];
    }
  }

  /** A single-spaced string stays so without its first character, after which no whitespace follows a space. */
  lemma SingleSpacedTail(t: string)
    requires t != [] && SingleSpaced(t)
    ensures SingleSpaced(t[1..])
    ensures IsWhitespace(t[0]) ==> t[0] == ' ' && (|t| == 1 || !IsWhitespace(t[1]))
  {
    var u := t[1..];
    assert forall i :: 0 <= i < |u| ==> u[i] == t[i + 1];
  }

  /** Sanitising twice is the same as sanitising once. */
  lemma SanitizeIdempotent(s: string)
    ensures Sanitize(Sanitize(s)) == Sanitize(s)
  {
    SanitizeSpec(s);
    SanitizeClean(Sanitize(s));
  }

  /**
   * Two words without whitespace or forbidden characters, separated by any
   * whitespace run without a newline, come out joined by exactly one space.
   */
  lemma SanitizeWords(x: string, w: string, y: string)
    requires x != [] && y != []
    requires forall i :: 0 <= i < |x| ==> !IsWhitespace(x[i]) && !IsForbidden(x[i])
    requires forall i :: 0 <= i < |y| ==> !IsWhitespace(y[i]) && !IsForbidden(y[i])
    requires w != [] && '\n' !in w && forall i :: 0 <= i < |w| ==> IsWhitespace(w[i])
    ensures Sanitize(x + w + y) == x + " " + y
  {
    var s := x + w + y;
    forall i | 0 <= i < |s|
      ensures !IsForbidden(s[i])
    {
      if i >= |x| + |w| {
        assert s[i] == y[i - |x| - |w|];
      } else if i >= |x| {
        assert s[i] == w[i - |x|];
      } else {
        assert s[i] == x[i];
      }
    }
    assert ReplaceForbidden(s) == s;
    CollapseBetween(x, w, y);
    CollapseWord(x);
    CollapseWord(y);
    TrimNoop(x + " " + y);
  }

  /** The worked example: "A: Study/Of X" becomes "A- Study-Of X". */
  lemma SanitizeExample()
    ensures Sanitize("A: Study/Of X") == "A- Study-Of X"
  {
    ExampleIsClean();
    SanitizeAfterReplace("A: Study/Of X", "A- Study-Of X");
  }

  /** When the first pass already yields a clean string, that string is the result. */
  lemma SanitizeAfterReplace(s: string, t: string)
    requires ReplaceForbidden(s) == t && IsClean(t)
    ensures Sanitize(s) == t
  {
    assert Sanitize(s) == Trim(CollapseWhitespace(t));
    CollapseSingleSpaced(t);
    TrimNoop(t);
  }

  /** The worked example's first pass already gives a clean string. */
  lemma ExampleIsClean()
    ensures ReplaceForbidden("A: Study/Of X") == "A- Study-Of X"
    ensures IsClean("A- Study-Of X")
  {
  }
}
