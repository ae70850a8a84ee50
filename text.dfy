/**
 * Character classes and the string operations the extension and the two
 * command-line scripts apply to user input: `startsWith`, `includes`/`in`,
 * `split('/')`'s last element, `trim()`/`strip()`, and splitting on a run
 * of separator characters (`split(/[, ]+/)`, `re.split(r'[,\s]+', ...)`).
 *
 * Whitespace is fixed to the six ASCII characters below: they belong to
 * `\s`, `trim()` and `strip()` in both JavaScript and Python.
 */
module Text {
  import opened Wrappers

  predicate IsWhitespace(c: char) {
    c == ' ' || c == '\t' || c == '\n' || c == '\r' || c == '\U{B}' || c == '\U{C}'
  }

  /** `\d` (ASCII digits). */
  predicate IsDigit(c: char) { '0' <= c <= '9' }

  /** `\w` (ASCII letters, digits and underscore). */
  predicate IsWordChar(c: char) { 'a' <= c <= 'z' || 'A' <= c <= 'Z' || IsDigit(c) || c == '_' }

  /** ASCII lower-casing, the comparison behind the `i` / `re.IGNORECASE` flags. */
  function ToLower(c: char): char {
    if 'A' <= c <= 'Z' then (c as int + 32) as char else c
  }

  /** The character classes that some regex in the source repeats with `+` or `*`. */
  datatype Class =
    | Digit              // \d
    | Word               // \w
    | Space              // \s
    | CommaOrSpace       // [, ]   (the extension's id-list separator)
    | CommaOrWhitespace  // [,\s]  (the scripts' id-list separator)

  predicate InClass(c: char, k: Class) {
    match k
    case Digit => IsDigit(c)
    case Word => IsWordChar(c)
    case Space => IsWhitespace(c)
    case CommaOrSpace => c == ',' || c == ' '
    case CommaOrWhitespace => c == ',' || IsWhitespace(c)
  }

  /** No character of `t` belongs to `k`. */
  predicate NoneIn(t: string, k: Class) {
    forall i :: 0 <= i < |t| ==> !InClass(t[i], k)
  }

  /** End of the maximal run of `k` characters that starts at `i` (a greedy `[k]*`). */
  function RunEnd(s: string, i: nat, k: Class): (j: nat)
    requires i <= |s|
    ensures i <= j <= |s|
    ensures forall m :: i <= m < j ==> InClass(s[m], k)
    ensures j == |s| || !InClass(s[j], k)
    decreases |s| - i
  {
    if i < |s| && InClass(s[i], k) then RunEnd(s, i + 1, k) else i
  }

  /** First index at or after `i` that holds a `k` character, or |s| if there is none. */
  function BreakEnd(s: string, i: nat, k: Class): (j: nat)
    requires i <= |s|
    ensures i <= j <= |s|
    ensures forall m :: i <= m < j ==> !InClass(s[m], k)
    ensures j == |s| || InClass(s[j], k)
    decreases |s| - i
  {
    if i < |s| && !InClass(s[i], k) then BreakEnd(s, i + 1, k) else i
  }

  /** `s.startsWith(prefix)` / `s.startswith(prefix)`. */
  predicate StartsWith(s: string, prefix: string) {
    |prefix| <= |s| && s[..|prefix|] == prefix
  }

  /** `pat` occurs in `s` at position `i`. */
  predicate OccursAt(s: string, pat: string, i: nat) {
    i + |pat| <= |s| && s[i..i + |pat|] == pat
  }

  /** An occurrence fixes the characters it covers. */
  lemma OccursAtChar(s: string, pat: string, i: nat, m: nat)
    requires OccursAt(s, pat, i) && m < |pat|
    ensures s[i + m] == pat[m]
  {
    assert s[i..i + |pat|][m] == s[i + m];
  }

  /** A position whose character differs from the first one of `pat` is not an occurrence of it. */
  lemma NotOccursAt(s: string, pat: string, i: nat, m: nat)
    requires m < |pat| && i + m < |s| && s[i + m] != pat[m]
    ensures !OccursAt(s, pat, i)
  {
    if i + |pat| <= |s| {
      assert s[i..i + |pat|][m] != pat[m];
    }
  }

  /** The leftmost occurrence of `pat` in `s` at or after `from` (`indexOf`). */
  function IndexOf(s: string, pat: string, from: nat): (r: Option<nat>)
    requires from <= |s|
    ensures r.Some? ==> from <= r.value && OccursAt(s, pat, r.value)
    ensures forall i :: from <= i && (r.None? || i < r.value) ==> !OccursAt(s, pat, i)
    decreases |s| - from
  {
    if OccursAt(s, pat, from) then Some(from)
    else if from + |pat| >= |s| then None
    else IndexOf(s, pat, from + 1)
  }

  /** `s.includes(pat)` / `pat in s`. */
  predicate Contains(s: string, pat: string) {
    IndexOf(s, pat, 0).Some?
  }

  /** An occurrence of `pat` at `i` with none before it is what `IndexOf` finds. */
  lemma IndexOfFirst(s: string, pat: string, i: nat)
    requires OccursAt(s, pat, i)
    requires forall j :: 0 <= j < i ==> !OccursAt(s, pat, j)
    ensures IndexOf(s, pat, 0) == Some(i)
  {
  }

  /** Start of the text after the last '/' at or before position `j` (0 if there is none). */
  function SegmentStart(s: string, j: nat): (i: nat)
    requires j <= |s|
    ensures i <= j
    ensures forall m :: i <= m < j ==> s[m] != '/'
    ensures i == 0 || s[i - 1] == '/'
    decreases j
  {
    if j == 0 || s[j - 1] == '/' then j else SegmentStart(s, j - 1)
  }

  /** The text after the last '/', i.e. `split('/').pop()` and `split('/')[-1]`. */
  function LastSegment(s: string): (r: string)
    ensures |r| <= |s|
    ensures '/' !in r
    ensures |r| < |s| ==> s[|s| - |r| - 1] == '/'
  {
    s[SegmentStart(s, |s|)..]
  }

  /** The last segment is a suffix of the text. */
  lemma LastSegmentSuffix(s: string)
    ensures LastSegment(s) == s[|s| - |LastSegment(s)|..]
  {
  }

  /** A text without '/' is its own last segment. */
  lemma LastSegmentWhole(s: string)
    requires '/' !in s
    ensures LastSegment(s) == s
  {
    LastSegmentSuffix(s);
  }

  /** A slash-free text placed right after a '/' is recovered whole as the last segment. */
  lemma LastSegmentAfterSlash(prefix: string, id: string)
    requires prefix != [] && prefix[|prefix| - 1] == '/'
    requires '/' !in id
    ensures LastSegment(prefix + id) == id
  {
    var s := prefix + id;
    assert s[|s| - |id|..] == id;
  }

  /** Behind a text ending in '/', segment starts are those of the appended text, shifted. */
  lemma {:induction false} SegmentStartShift(p: string, t: string, j: nat)
    requires p != [] && p[|p| - 1] == '/'
    requires j <= |t|
    ensures SegmentStart(p + t, |p| + j) == |p| + SegmentStart(t, j)
    decreases j
  {
    var s := p + t;
    if j == 0 {
      assert s[|p| - 1] == '/';
    } else {
      assert s[|p| + j - 1] == t[j - 1];
      if t[j - 1] != '/' {
        SegmentStartShift(p, t, j - 1);
      }
    }
  }

  /** Appending a text to one ending in '/' keeps that text's last segment. */
  lemma LastSegmentAppend(p: string, t: string)
    requires p != [] && p[|p| - 1] == '/'
    ensures LastSegment(p + t) == LastSegment(t)
  {
    SegmentStartShift(p, t, |t|);
    var i := SegmentStart(t, |t|);
    assert (p + t)[|p| + i..] == t[i..];
  }

  /** Drops the leading whitespace. */
  function TrimStart(s: string): (r: string)
    ensures |r| <= |s|
    ensures forall i :: 0 <= i < |s| - |r| ==> IsWhitespace(s[i])
    ensures r == [] || !IsWhitespace(r[0])
    decreases |s|
  {
    if s != [] && IsWhitespace(s[0]) then TrimStart(s[1..]) else s
  }

  /** Drops the trailing whitespace. */
  function TrimEnd(s: string): (r: string)
    ensures |r| <= |s|
    ensures forall i :: |r| <= i < |s| ==> IsWhitespace(s[i])
    ensures r == [] || !IsWhitespace(r[|r| - 1])
    decreases |s|
  {
    if s != [] && IsWhitespace(s[|s| - 1]) then TrimEnd(s[..|s| - 1]) else s
  }

  /** What remains after the leading whitespace is a suffix of the text. */
  lemma {:induction false} TrimStartSuffix(s: string)
    ensures TrimStart(s) == s[|s| - |TrimStart(s)|..]
    decreases |s|
  {
    if s != [] && IsWhitespace(s[0]) {
      TrimStartSuffix(s[1..]);
      var r := TrimStart(s);
      assert s[1..][|s| - 1 - |r|..] == s[|s| - |r|..];
    }
  }

  /** What remains before the trailing whitespace is a prefix of the text. */
  lemma {:induction false} TrimEndPrefix(s: string)
    ensures TrimEnd(s) == s[..|TrimEnd(s)|]
    decreases |s|
  {
    if s != [] && IsWhitespace(s[|s| - 1]) {
      TrimEndPrefix(s[..|s| - 1]);
      var r := TrimEnd(s);
      assert s[..|s| - 1][..|r|] == s[..|r|];
    }
  }

  /** Leading whitespace of a text that ends visibly is dropped the same way with anything after it. */
  lemma {:induction false} TrimStartAppend(a: string, b: string)
    requires a != [] && !IsWhitespace(a[|a| - 1])
    ensures TrimStart(a + b) == TrimStart(a) + b
    decreases |a|
  {
    if IsWhitespace(a[0]) {
      assert (a + b)[1..] == a[1..] + b;
      TrimStartAppend(a[1..], b);
    }
  }

  /** A whitespace run in front of a text that starts visibly is exactly what `TrimStart` drops. */
  lemma {:induction false} TrimStartRun(w: string, b: string)
    requires w != [] && forall i :: 0 <= i < |w| ==> IsWhitespace(w[i])
    requires b == [] || !IsWhitespace(b[0])
    ensures TrimStart(w + b) == b
    decreases |w|
  {
    assert (w + b)[0] == w[0];
    assert (w + b)[1..] == w[1..] + b;
    if |w| > 1 {
      TrimStartRun(w[1..], b);
    } else {
      assert w[1..] + b == b;
    }
  }

  /** Number of leading whitespace characters of `s`. */
  function LeadingWhitespace(s: string): nat {
    |s| - |TrimStart(s)|
  }

  /**
   * `trim()` / `strip()`: the slice of `s` left after removing the
   * whitespace at both ends; it neither starts nor ends with whitespace.
   */
  function Trim(s: string): (r: string)
    ensures LeadingWhitespace(s) + |r| <= |s|
    ensures forall i :: 0 <= i < LeadingWhitespace(s) ==> IsWhitespace(s[i])
    ensures forall i :: LeadingWhitespace(s) + |r| <= i < |s| ==> IsWhitespace(s[i])
    ensures r == [] || (!IsWhitespace(r[0]) && !IsWhitespace(r[|r| - 1]))
  {
    var t := TrimStart(s);
    TrimStartSuffix(s);
    TrimEndPrefix(t);
    TrailingAfterMiddle(s, t, TrimEnd(t));
    MiddleSlice(s, t, TrimEnd(t));
    TrimEnd(t)
  }

  /** `trim()` keeps the slice between the leading and the trailing whitespace. */
  lemma TrimSlice(s: string)
    ensures Trim(s) == s[LeadingWhitespace(s)..LeadingWhitespace(s) + |Trim(s)|]
  {
    var t := TrimStart(s);
    TrimStartSuffix(s);
    TrimEndPrefix(t);
    MiddleSlice(s, t, TrimEnd(t));
  }

  /** A prefix of a suffix is the slice between them. */
  lemma MiddleSlice(s: string, t: string, r: string)
    requires |t| <= |s| && t == s[|s| - |t|..]
    requires |r| <= |t| && r == t[..|r|]
    ensures r == s[|s| - |t|..|s| - |t| + |r|]
    ensures r != [] ==> r[0] == t[0]
  {
  }

  /** Past a prefix of a suffix, the text is what the suffix holds there. */
  lemma TrailingAfterMiddle(s: string, t: string, r: string)
    requires |t| <= |s| && t == s[|s| - |t|..]
    requires |r| <= |t|
    requires forall i :: |r| <= i < |t| ==> IsWhitespace(t[i])
    ensures forall i :: |s| - |t| + |r| <= i < |s| ==> IsWhitespace(s[i])
  {
    var lead := |s| - |t|;
    forall i | lead + |r| <= i < |s|
      ensures IsWhitespace(s[i])
    {
      assert s[i] == t[i - lead];
    }
  }


  /** A string with no whitespace at either end is its own `trim()`. */
  lemma TrimNoop(s: string)
    requires s == [] || (!IsWhitespace(s[0]) && !IsWhitespace(s[|s| - 1]))
    ensures Trim(s) == s
  {
  }

  /**
   * `s.split(re)` where `re` is `[k]+`: the pieces between maximal runs of
   * separators, in order. A separator at either end gives an empty first or
   * last piece; the empty string gives one empty piece.
   */
  function Split(s: string, k: Class): (parts: seq<string>)
    ensures |parts| >= 1
    ensures forall m :: 0 <= m < |parts| ==> NoneIn(parts[m], k)
    ensures forall m :: 0 < m < |parts| - 1 ==> parts[m] != []
    ensures s != [] && !InClass(s[0], k) ==> parts[0] != []
    ensures NoneIn(s, k) ==> parts == [s]
    decreases |s|
  {
    var j := BreakEnd(s, 0, k);
    if j == |s| then [s]
    else [s[..j]] + Split(s[RunEnd(s, j, k)..], k)
  }

  /** `sep.join(parts)`. */
  function JoinWith(parts: seq<string>, sep: string): string
    decreases |parts|
  {
    if parts == [] then []
    else if |parts| == 1 then parts[0]
    else parts[0] + sep + JoinWith(parts[1..], sep)
  }

  /**
   * Splitting undoes joining: pieces that are non-empty and separator-free,
   * joined with a non-empty separator string made of separators, split back
   * into the same pieces.
   */
  lemma {:induction false} SplitJoin(parts: seq<string>, sep: string, k: Class)
    requires |parts| >= 1
    requires forall m :: 0 <= m < |parts| ==> parts[m] != [] && NoneIn(parts[m], k)
    requires sep != [] && forall i :: 0 <= i < |sep| ==> InClass(sep[i], k)
    ensures Split(JoinWith(parts, sep), k) == parts
    decreases |parts|
  {
    if |parts| > 1 {
      JoinWithStart(parts[1..], sep);
      SplitStep(parts[0], sep, JoinWith(parts[1..], sep), k);
      SplitJoin(parts[1..], sep, k);
    }
  }

  /** One step of `Split`: a separator-free piece, a run of separators, and the rest. */
  lemma SplitStep(p: string, sep: string, rest: string, k: Class)
    requires NoneIn(p, k)
    requires sep != [] && forall i :: 0 <= i < |sep| ==> InClass(sep[i], k)
    requires rest == [] || !InClass(rest[0], k)
    ensures Split(p + sep + rest, k) == [p] + Split(rest, k)
  {
    var s := p + sep + rest;
    var e := |p| + |sep|;
    forall m | 0 <= m < |p|
      ensures !InClass(s[m], k)
    {
      assert s[m] == p[m];
    }
    assert s[|p|] == sep[0];
    BreakEndAt(s, 0, |p|, k);
    forall m | |p| <= m < e
      ensures InClass(s[m], k)
    {
      assert s[m] == sep[m - |p|];
    }
    if e < |s| {
      assert s[e] == rest[0];
    }
    RunEndAt(s, |p|, e, k);
    assert s[e..] == rest;
    assert s[..|p|] == p;
  }

  /** A stretch of characters outside `k` that ends at a `k` character or at the end is where the break ends. */
  lemma BreakEndAt(s: string, i: nat, j: nat, k: Class)
    requires i <= j <= |s|
    requires forall m :: i <= m < j ==> !InClass(s[m], k)
    requires j == |s| || InClass(s[j], k)
    ensures BreakEnd(s, i, k) == j
  {
  }

  /** A stretch of `k` characters that ends at a character outside `k` or at the end is where the run ends. */
  lemma RunEndAt(s: string, i: nat, j: nat, k: Class)
    requires i <= j <= |s|
    requires forall m :: i <= m < j ==> InClass(s[m], k)
    requires j == |s| || !InClass(s[j], k)
    ensures RunEnd(s, i, k) == j
  {
  }


  /** A join of non-empty pieces starts with the first piece's first character. */
  lemma JoinWithStart(parts: seq<string>, sep: string)
    requires |parts| >= 1 && parts[0] != []
    ensures JoinWith(parts, sep) != [] && JoinWith(parts, sep)[0] == parts[0][0]
  {
  }

  /** A join whose last piece is non-empty ends with that piece's last character. */
  lemma {:induction false} JoinWithEnd(parts: seq<string>, sep: string)
    requires |parts| >= 1 && parts[|parts| - 1] != []
    ensures var j := JoinWith(parts, sep);
            j != [] && j[|j| - 1] == parts[|parts| - 1][|parts[|parts| - 1]| - 1]
    decreases |parts|
  {
    if |parts| > 1 {
      JoinWithEnd(parts[1..], sep);
    }
  }

  /** A text without the first character of `pat` does not contain `pat`. */
  lemma AbsentFirstChar(s: string, pat: string)
    requires pat != [] && pat[0] !in s
    ensures !Contains(s, pat)
    ensures !StartsWith(s, pat)
  {
    if Contains(s, pat) {
      var i := IndexOf(s, pat, 0).value;
      OccursAtChar(s, pat, i, 0);
    }
  }

  /** A character found in no piece and not in the separator is not in the join. */
  lemma {:induction false} JoinWithChars(parts: seq<string>, sep: string, c: char)
    requires forall m :: 0 <= m < |parts| ==> c !in parts[m]
    requires c !in sep
    ensures c !in JoinWith(parts, sep)
    decreases |parts|
  {
    if |parts| > 1 {
      JoinWithChars(parts[1..], sep, c);
    }
  }
}
