/**
 * The arXiv identifier pattern `\d+\.\d+(?:v\d+)?` written as an explicit
 * recogniser. `MatchAt` follows the backtracking matcher (every quantifier
 * greedy); `IsId` is the pattern read as a set of strings. The lemmas show
 * that the greedy match at a position is the longest prefix there that is
 * an identifier, from which the unanchored search (`match`/`test`), the
 * anchored test (`^...$`) and the scanners' captures all follow.
 */
module ArxivId {
  import opened Wrappers
  import opened Text

  /**
   * What may follow `\d+\.\d+`: nothing (the scripts' page scanner), `v\d+`
   * (the extension's unflagged patterns) or `[vV]\d+` (its `i`-flagged
   * page scanner).
   */
  datatype Suffix = NoVersion | Version(caseless: bool)

  predicate IsVersionMark(c: char, sfx: Suffix) {
    sfx.Version? && (c == 'v' || (sfx.caseless && c == 'V'))
  }

  /** `\d+` as a whole string. */
  predicate IsNumber(t: string) {
    t != [] && forall i :: 0 <= i < |t| ==> IsDigit(t[i])
  }

  /** The optional version part, as a whole string. */
  predicate IsVersionPart(t: string, sfx: Suffix) {
    t == [] || (IsVersionMark(t[0], sfx) && IsNumber(t[1..]))
  }

  /** Reference reading of the pattern: `t` is digits, '.', digits, then an optional version part. */
  ghost predicate IsId(t: string, sfx: Suffix) {
    exists p, q ::
      0 < p && p + 1 < q <= |t| && IsNumber(t[..p]) && t[p] == '.' &&
      IsNumber(t[p + 1..q]) && IsVersionPart(t[q..], sfx)
  }

  /** The pattern matches `s[i..e]`. */
  ghost predicate MatchesAt(s: string, i: nat, e: nat, sfx: Suffix) {
    i <= e <= |s| && IsId(s[i..e], sfx)
  }

  /** End of the greedy match of the pattern starting at `i`, if the pattern matches there. */
  function MatchAt(s: string, i: nat, sfx: Suffix): (r: Option<nat>)
    requires i <= |s|
    ensures r.Some? ==> i < r.value <= |s|
  {
    var j := RunEnd(s, i, Digit);
    if j == i || j == |s| || s[j] != '.' then None
    else
      var k := RunEnd(s, j + 1, Digit);
      if k == j + 1 then None
      else if k + 1 < |s| && IsVersionMark(s[k], sfx) && IsDigit(s[k + 1]) then Some(RunEnd(s, k + 1, Digit))
      else Some(k)
  }

  /** A digit run `s[a..b]` with `a < b` reads as `\d+`. */
  lemma RunIsNumber(s: string, a: nat, b: nat)
    requires a < b <= |s|
    requires forall m :: a <= m < b ==> IsDigit(s[m])
    ensures IsNumber(s[a..b])
  {
  }

  /** The pieces of an identifier, located inside `s`, make `s[i..e]` an identifier. */
  lemma IdFromPieces(s: string, i: nat, j: nat, k: nat, e: nat, sfx: Suffix)
    requires i < j && j + 1 < k <= e <= |s|
    requires IsNumber(s[i..j]) && s[j] == '.' && IsNumber(s[j + 1..k]) && IsVersionPart(s[k..e], sfx)
    ensures MatchesAt(s, i, e, sfx)
  {
    var t := s[i..e];
    var p, q := j - i, k - i;
    SliceOfSlice(s, i, e, 0, p);
    SliceOfSlice(s, i, e, p + 1, q);
    SliceOfSlice(s, i, e, q, |t|);
    assert t[..p] == t[0..p];
    assert t[q..] == t[q..|t|];
    assert t[p] == s[j];
  }

  /** A slice of a slice is a slice of the whole. */
  lemma SliceOfSlice(s: string, i: nat, e: nat, a: nat, b: nat)
    requires i <= e <= |s| && a <= b <= e - i
    ensures s[i..e][a..b] == s[i + a..i + b]
  {
    assert forall m :: 0 <= m < b - a ==> s[i..e][a..b][m] == s[i + a + m];
  }

  /** What the greedy matcher returns is a match. */
  lemma MatchAtSound(s: string, i: nat, sfx: Suffix)
    requires i <= |s| && MatchAt(s, i, sfx).Some?
    ensures MatchesAt(s, i, MatchAt(s, i, sfx).value, sfx)
  {
    var j := RunEnd(s, i, Digit);
    var k := RunEnd(s, j + 1, Digit);
    var e := MatchAt(s, i, sfx).value;
    RunIsNumber(s, i, j);
    RunIsNumber(s, j + 1, k);
    if e != k {
      RunIsNumber(s, k + 1, e);
      assert s[k..e][1..] == s[k + 1..e];
    }
    IdFromPieces(s, i, j, k, e, sfx);
  }

  /** Every match at `i` ends no later than the greedy match there, so the greedy match exists. */
  lemma MatchAtComplete(s: string, i: nat, e: nat, sfx: Suffix)
    requires MatchesAt(s, i, e, sfx)
    ensures MatchAt(s, i, sfx).Some? && e <= MatchAt(s, i, sfx).value
  {
    var p, q := Pieces(s[i..e], sfx);
    SlicePieces(s, i, e, p, q, sfx);
    MatchAtOfPieces(s, i, i + p, i + q, e, sfx);
  }

  /** Where the '.' and the version part of an identifier are. */
  lemma Pieces(t: string, sfx: Suffix) returns (p: nat, q: nat)
    requires IsId(t, sfx)
    ensures 0 < p && p + 1 < q <= |t| && IsNumber(t[..p]) && t[p] == '.'
    ensures IsNumber(t[p + 1..q]) && IsVersionPart(t[q..], sfx)
  {
    p, q :| 0 < p && p + 1 < q <= |t| && IsNumber(t[..p]) && t[p] == '.' &&
            IsNumber(t[p + 1..q]) && IsVersionPart(t[q..], sfx);
  }

  /** The pieces of an identifier found in the slice `s[i..e]`, located in `s` itself. */
  lemma SlicePieces(s: string, i: nat, e: nat, p: nat, q: nat, sfx: Suffix)
    requires i <= e <= |s| && 0 < p && p + 1 < q <= e - i
    requires IsNumber(s[i..e][..p]) && s[i..e][p] == '.'
    requires IsNumber(s[i..e][p + 1..q]) && IsVersionPart(s[i..e][q..], sfx)
    ensures IsNumber(s[i..i + p]) && s[i + p] == '.'
    ensures IsNumber(s[i + p + 1..i + q]) && IsVersionPart(s[i + q..e], sfx)
  {
    var t := s[i..e];
    SliceOfSlice(s, i, e, 0, p);
    SliceOfSlice(s, i, e, p + 1, q);
    SliceOfSlice(s, i, e, q, |t|);
    assert t[..p] == t[0..p];
    assert t[q..] == t[q..|t|];
  }

  /** Index form of `MatchAtComplete`: the greedy matcher reaches at least the end of the located pieces. */
  lemma MatchAtOfPieces(s: string, i: nat, j: nat, k: nat, e: nat, sfx: Suffix)
    requires i < j && j + 1 < k <= e <= |s|
    requires IsNumber(s[i..j]) && s[j] == '.' && IsNumber(s[j + 1..k]) && IsVersionPart(s[k..e], sfx)
    ensures MatchAt(s, i, sfx).Some? && e <= MatchAt(s, i, sfx).value
  {
    NumberRun(s, i, j);
    RunEndAt(s, i, j, Digit);
    NumberRun(s, j + 1, k);
    if k < e {
      VersionRun(s, k, e, sfx);
      RunEndAt(s, j + 1, k, Digit);
    }
  }

  /** A number `s[a..b]` is a run of digits. */
  lemma NumberRun(s: string, a: nat, b: nat)
    requires a < b <= |s| && IsNumber(s[a..b])
    ensures forall m :: a <= m < b ==> InClass(s[m], Digit)
    ensures RunEnd(s, a, Digit) >= b
  {
    assert forall m :: a <= m < b ==> s[m] == s[a..b][m - a];
    RunEndAtLeast(s, a, b, Digit);
  }

  /** A non-empty version part `s[k..e]`: a mark, then digits the greedy matcher runs through. */
  lemma VersionRun(s: string, k: nat, e: nat, sfx: Suffix)
    requires k < e <= |s| && IsVersionPart(s[k..e], sfx)
    ensures k + 1 < |s| && IsVersionMark(s[k], sfx) && !InClass(s[k], Digit) && IsDigit(s[k + 1])
    ensures RunEnd(s, k + 1, Digit) >= e
  {
    var v := s[k..e];
    assert s[k] == v[0];
    assert v[1..] == s[k + 1..e];
    NumberRun(s, k + 1, e);
  }

  /** A run that is all `k` up to `j` ends at `j` or later. */
  lemma RunEndAtLeast(s: string, i: nat, j: nat, k: Class)
    requires i <= j <= |s|
    requires forall m :: i <= m < j ==> InClass(s[m], k)
    ensures RunEnd(s, i, k) >= j
  {
  }

  /**
   * The greedy match at `i` is exactly the longest match at `i`: there is
   * none exactly when no prefix of `s[i..]` is an identifier, and when there
   * is one it is an identifier and no longer prefix is.
   */
  lemma MatchAtLongest(s: string, i: nat, sfx: Suffix)
    requires i <= |s|
    ensures MatchAt(s, i, sfx).None? <==> forall e: nat :: !MatchesAt(s, i, e, sfx)
    ensures MatchAt(s, i, sfx).Some? ==>
              && MatchesAt(s, i, MatchAt(s, i, sfx).value, sfx)
              && forall e: nat :: MatchAt(s, i, sfx).value < e ==> !MatchesAt(s, i, e, sfx)
  {
    forall e: nat | MatchesAt(s, i, e, sfx)
      ensures MatchAt(s, i, sfx).Some? && e <= MatchAt(s, i, sfx).value
    {
      MatchAtComplete(s, i, e, sfx);
    }
    if MatchAt(s, i, sfx).Some? {
      MatchAtSound(s, i, sfx);
    }
  }

  /** The anchored test `/^\d+\.\d+(?:v\d+)?$/.test(t)`, with the suffix flavour as a parameter. */
  predicate FullMatch(t: string, sfx: Suffix) {
    MatchAt(t, 0, sfx) == Some(|t|)
  }

  /** The anchored test accepts exactly the strings the pattern describes. */
  lemma FullMatchIsId(t: string, sfx: Suffix)
    ensures FullMatch(t, sfx) <==> IsId(t, sfx)
  {
    assert t[0..|t|] == t;
    if FullMatch(t, sfx) {
      MatchAtSound(t, 0, sfx);
    }
    if IsId(t, sfx) {
      MatchAtComplete(t, 0, |t|, sfx);
    }
  }

  /** The extension's token filter `/^\d+\.\d+(?:v\d+)?$/` (lower-case `v` only). */
  predicate IsArxivId(t: string) {
    FullMatch(t, Version(false))
  }

  /** A leftmost-longest match: it starts at `i`, no match starts earlier, and none at `i` ends later. */
  ghost predicate LeftmostLongest(s: string, i: nat, e: nat, sfx: Suffix) {
    && MatchesAt(s, i, e, sfx)
    && (forall j: nat, e': nat :: j < i ==> !MatchesAt(s, j, e', sfx))
    && (forall e': nat :: e < e' ==> !MatchesAt(s, i, e', sfx))
  }

  /** A span `s[start..end]` of the text. */
  datatype Span = Span(start: nat, end: nat)

  /** The leftmost position at or after `from` where the pattern matches, with the greedy end there. */
  function FindFrom(s: string, from: nat, sfx: Suffix): (r: Option<Span>)
    requires from <= |s|
    ensures r.Some? ==> from <= r.value.start <= |s| && MatchAt(s, r.value.start, sfx) == Some(r.value.end)
    ensures forall j :: from <= j <= |s| && (r.None? || j < r.value.start) ==> MatchAt(s, j, sfx).None?
    decreases |s| - from
  {
    match MatchAt(s, from, sfx)
    case Some(e) => Some(Span(from, e))
    case None => if from == |s| then None else FindFrom(s, from + 1, sfx)
  }

  /** `s.match(/\d+\.\d+(?:v\d+)?/)[0]`, or None where `match` gives null. */
  function FirstId(s: string): Option<string> {
    match FindFrom(s, 0, Version(false))
    case Some(sp) => Some(s[sp.start..sp.end])
    case None => None
  }

  /**
   * The unanchored search finds nothing exactly when no substring is an
   * identifier; otherwise it returns the leftmost-longest one.
   */
  lemma FirstIdSpec(s: string)
    ensures FirstId(s).None? <==> forall i: nat, e: nat :: !MatchesAt(s, i, e, Version(false))
    ensures FirstId(s).Some? ==>
              exists i: nat, e: nat :: LeftmostLongest(s, i, e, Version(false)) && FirstId(s).value == s[i..e]
  {
    var v := Version(false);
    forall i: nat, e: nat | MatchesAt(s, i, e, v)
      ensures FindFrom(s, 0, v).Some? && FindFrom(s, 0, v).value.start <= i
    {
      MatchAtLongest(s, i, v);
    }
    match FindFrom(s, 0, v)
    case Some(sp) =>
      MatchAtLongest(s, sp.start, v);
      forall j: nat, e': nat | j < sp.start
        ensures !MatchesAt(s, j, e', v)
      {
        if MatchesAt(s, j, e', v) {
          MatchAtLongest(s, j, v);
        }
      }
      assert LeftmostLongest(s, sp.start, sp.end, v);
    case None =>
  }

  /** Keeps the tokens the anchored test accepts, in order (`filter(id => /^...$/.test(id))`). */
  function KeepIds(tokens: seq<string>): (r: seq<string>)
    ensures forall k :: 0 <= k < |r| ==> IsArxivId(r[k])
    ensures forall t :: t in r <==> t in tokens && IsArxivId(t)
    ensures |r| <= |tokens|
    decreases |tokens|
  {
    if tokens == [] then []
    else (if IsArxivId(tokens[0]) then [tokens[0]] else []) + KeepIds(tokens[1..])
  }

  /** Filtering keeps input order: the kept tokens of `a + b` are those of `a` followed by those of `b`. */
  lemma {:induction false} KeepIdsAppend(a: seq<string>, b: seq<string>)
    ensures KeepIds(a + b) == KeepIds(a) + KeepIds(b)
    decreases |a|
  {
    if a == [] {
      assert a + b == b;
    } else {
      assert (a + b)[0] == a[0];
      assert (a + b)[1..] == a[1..] + b;
      KeepIdsAppend(a[1..], b);
    }
  }

  /** The characters an identifier may contain. */
  predicate IsIdChar(c: char) {
    IsDigit(c) || c == '.' || c == 'v' || c == 'V'
  }

  /** Whatever the greedy matcher returns consists of digits, '.', and the version mark. */
  lemma MatchAtChars(s: string, i: nat, sfx: Suffix)
    requires i <= |s| && MatchAt(s, i, sfx).Some?
    ensures forall m :: i <= m < MatchAt(s, i, sfx).value ==> IsIdChar(s[m])
  {
  }

  /**
   * An identifier is made of identifier characters only, and it starts and
   * ends with a digit; so it holds no '/', ',' or whitespace.
   */
  lemma IdChars(t: string, sfx: Suffix)
    requires IsId(t, sfx)
    ensures t != [] && IsDigit(t[0]) && IsDigit(t[|t| - 1])
    ensures forall m :: 0 <= m < |t| ==> IsIdChar(t[m])
    ensures forall m :: 0 <= m < |t| ==> IsDigit(t[m]) || t[m] == '.' || IsVersionMark(t[m], sfx)
  {
    var p, q := Pieces(t, sfx);
    PieceChars(t, p, q, sfx);
    PieceEnds(t, p, q, sfx);
  }

  /** Each character of the located pieces is a digit, the '.', or the version mark. */
  lemma PieceChars(t: string, p: nat, q: nat, sfx: Suffix)
    requires 0 < p && p + 1 < q <= |t| && IsNumber(t[..p]) && t[p] == '.'
    requires IsNumber(t[p + 1..q]) && IsVersionPart(t[q..], sfx)
    ensures forall m :: 0 <= m < |t| ==> IsDigit(t[m]) || t[m] == '.' || IsVersionMark(t[m], sfx)
    ensures forall m :: 0 <= m < |t| ==> IsIdChar(t[m])
  {
    forall m | 0 <= m < |t|
      ensures IsDigit(t[m]) || t[m] == '.' || IsVersionMark(t[m], sfx)
    {
      if m < p {
        assert t[..p][m] == t[m];
      } else if p < m < q {
        assert t[p + 1..q][m - p - 1] == t[m];
      } else if q < m {
        assert t[q..][1..][m - q - 1] == t[m];
      }
    }
  }

  /** The located pieces start and end with a digit. */
  lemma PieceEnds(t: string, p: nat, q: nat, sfx: Suffix)
    requires 0 < p && p + 1 < q <= |t| && IsNumber(t[..p]) && t[p] == '.'
    requires IsNumber(t[p + 1..q]) && IsVersionPart(t[q..], sfx)
    ensures IsDigit(t[0]) && IsDigit(t[|t| - 1])
  {
    assert t[..p][0] == t[0];
    if q == |t| {
      assert t[p + 1..q][q - p - 2] == t[|t| - 1];
    } else {
      var v := t[q..];
      assert v[1..][|v| - 2] == t[|t| - 1];
    }
  }

  /** A list of identifiers passes the token filter whole. */
  lemma {:induction false} KeepIdsAll(tokens: seq<string>)
    requires forall k :: 0 <= k < |tokens| ==> IsArxivId(tokens[k])
    ensures KeepIds(tokens) == tokens
    decreases |tokens|
  {
    if tokens != [] {
      KeepIdsAll(tokens[1..]);
      assert [tokens[0]] + tokens[1..] == tokens;
    }
  }

  /** What the unanchored search returns is an identifier. */
  lemma FirstIdIsId(s: string)
    requires FirstId(s).Some?
    ensures IsId(FirstId(s).value, Version(false))
  {
    var sp := FindFrom(s, 0, Version(false)).value;
    MatchAtSound(s, sp.start, Version(false));
  }

  /** An identifier with a lower-case version mark (or none) is also one under the `i` flag. */
  lemma IdCaseless(t: string)
    requires IsId(t, Version(false))
    ensures IsId(t, Version(true))
  {
    var p, q :| 0 < p && p + 1 < q <= |t| && IsNumber(t[..p]) && t[p] == '.' &&
      IsNumber(t[p + 1..q]) && IsVersionPart(t[q..], Version(false));
    assert IsVersionPart(t[q..], Version(true));
  }
}
