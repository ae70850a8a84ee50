/**
 * The two page scanners: the extension's
 * `/(?:arxiv\.org\/(?:\w+)\/|arxiv:[\s]*)(\d+\.\d+(?:v\d+)?)/gi` run with
 * `matchAll` and deduplicated through a `Set`, and the script's
 * `https?://arxiv\.org/\w+/(\d+\.\d+)` (IGNORECASE) run with `findall` and
 * collected into a `set`. Both take the already-extracted page text.
 */
module PageScan {
  import opened Wrappers
  import opened Text
  import opened ArxivId

  /** The lower-case literal `lit` occurs at `p` of `s`, ignoring ASCII case. */
  predicate CaselessAt(s: string, p: nat, lit: string) {
    p + |lit| <= |s| && forall m :: 0 <= m < |lit| ==> ToLower(s[p + m]) == lit[m]
  }

  /** `arxiv\.org\/(?:\w+)\/`, caseless: end of that prefix when it starts at `p`. */
  function SitePathPrefix(s: string, p: nat): (r: Option<nat>)
    requires p <= |s|
    ensures r.Some? ==> p < r.value <= |s|
  {
    if !CaselessAt(s, p, "arxiv.org/") then None
    else
      var w := RunEnd(s, p + 10, Word);
      if w == p + 10 || w == |s| || s[w] != '/' then None else Some(w + 1)
  }

  /** `arxiv:[\s]*`, caseless: end of that prefix when it starts at `p`. */
  function ColonPrefix(s: string, p: nat): (r: Option<nat>)
    requires p <= |s|
    ensures r.Some? ==> p < r.value <= |s|
  {
    if CaselessAt(s, p, "arxiv:") then Some(RunEnd(s, p + 6, Space)) else None
  }

  /** `https?://arxiv\.org/\w+/`, caseless: end of that prefix when it starts at `p`. */
  function LinkPrefix(s: string, p: nat): (r: Option<nat>)
    requires p <= |s|
    ensures r.Some? ==> p < r.value <= |s|
  {
    if !CaselessAt(s, p, "http") then None
    else
      var q := if p + 4 < |s| && ToLower(s[p + 4]) == 's' then p + 5 else p + 4;
      if CaselessAt(s, q, "://") then SitePathPrefix(s, q + 3) else None
  }

  /** The extension's page pattern, or the script's. */
  datatype Scanner = ExtensionScanner | ScriptScanner

  /** The identifier flavour each scanner captures. */
  function SuffixOf(sc: Scanner): Suffix {
    if sc.ExtensionScanner? then Version(true) else NoVersion
  }

  /**
   * The prefix part of the pattern. For the extension the two alternatives
   * cannot both match at one position ('.' against ':' at offset 5), so
   * trying them in order is the whole alternation.
   */
  function PrefixEnd(s: string, p: nat, sc: Scanner): (r: Option<nat>)
    requires p <= |s|
    ensures r.Some? ==> p < r.value <= |s|
  {
    match sc
    case ExtensionScanner => if SitePathPrefix(s, p).Some? then SitePathPrefix(s, p) else ColonPrefix(s, p)
    case ScriptScanner => LinkPrefix(s, p)
  }

  /** One match of a page pattern: where it starts and the span of the captured identifier. */
  datatype Hit = Hit(at: nat, id: Span)

  /** The page pattern matched at `p`, if it matches there. */
  function HitAt(s: string, p: nat, sc: Scanner): (r: Option<Hit>)
    requires p <= |s|
    ensures r.Some? ==> r.value.at == p < r.value.id.start < r.value.id.end <= |s|
  {
    match PrefixEnd(s, p, sc)
    case None => None
    case Some(q) =>
      match MatchAt(s, q, SuffixOf(sc))
      case None => None
      case Some(e) => Some(Hit(p, Span(q, e)))
  }

  /** Whether and how the page pattern matches at each position of `s` before its end. */
  function HitTable(s: string, sc: Scanner): (t: seq<Option<Hit>>)
    ensures |t| == |s|
    ensures forall p :: 0 <= p < |s| ==> t[p] == HitAt(s, p, sc)
  {
    seq(|s|, p requires 0 <= p < |s| => HitAt(s, p, sc))
  }

  /** Entry `p` of a table, when present, is a match starting at `p` and ending within the text. */
  predicate WellFormed(t: seq<Option<Hit>>) {
    forall p :: 0 <= p < |t| && t[p].Some? ==> t[p].value.at == p < t[p].value.id.end <= |t|
  }

  lemma HitTableWellFormed(s: string, sc: Scanner)
    ensures WellFormed(HitTable(s, sc))
  {
  }

  /**
   * The left-to-right scan of `matchAll` / `findall` over a table of
   * matches: take the match at the current position and resume at its end,
   * or move one position on.
   */
  function Scan(t: seq<Option<Hit>>, from: nat): (hits: seq<Hit>)
    requires WellFormed(t) && from <= |t|
    ensures forall k :: 0 <= k < |hits| ==> from <= hits[k].at < |t| && t[hits[k].at] == Some(hits[k])
    ensures forall k :: 0 <= k < |hits| - 1 ==> hits[k].id.end <= hits[k + 1].at
    decreases |t| - from
  {
    if from == |t| then []
    else
      match t[from]
      case Some(h) => [h] + Scan(t, h.id.end)
      case None => Scan(t, from + 1)
  }

  /** No match is skipped before the first hit (anywhere, if there is no hit). */
  lemma {:induction false} ScanFirst(t: seq<Option<Hit>>, from: nat)
    requires WellFormed(t) && from <= |t|
    ensures var hits := Scan(t, from);
            forall p :: from <= p < |t| && (hits == [] || p < hits[0].at) ==> t[p].None?
    decreases |t| - from
  {
    if from < |t| && t[from].None? {
      ScanFirst(t, from + 1);
    }
  }

  /** No match is skipped after the last hit. */
  lemma {:induction false} ScanLast(t: seq<Option<Hit>>, from: nat)
    requires WellFormed(t) && from <= |t|
    ensures var hits := Scan(t, from);
            hits != [] ==> forall p :: hits[|hits| - 1].id.end <= p < |t| ==> t[p].None?
    decreases |t| - from
  {
    if from < |t| {
      match t[from]
      case Some(h) =>
        var rest := Scan(t, h.id.end);
        assert Scan(t, from) == [h] + rest;
        if rest == [] {
          ScanFirst(t, h.id.end);
        } else {
          ScanLast(t, h.id.end);
        }
      case None =>
        ScanLast(t, from + 1);
    }
  }

  /** No match is skipped between two consecutive hits. */
  lemma {:induction false} ScanBetween(t: seq<Option<Hit>>, from: nat)
    requires WellFormed(t) && from <= |t|
    ensures var hits := Scan(t, from);
            forall k, p :: 0 <= k < |hits| - 1 && hits[k].id.end <= p < hits[k + 1].at ==> t[p].None?
    decreases |t| - from
  {
    if from < |t| {
      match t[from]
      case Some(h) =>
        var rest := Scan(t, h.id.end);
        var hits := [h] + rest;
        assert Scan(t, from) == hits;
        ScanFirst(t, h.id.end);
        ScanBetween(t, h.id.end);
        forall k: nat, p | k < |hits| - 1 && hits[k].id.end <= p < hits[k + 1].at
          ensures t[p].None?
        {
          if k > 0 {
            assert hits[k] == rest[k - 1] && hits[k + 1] == rest[k];
          }
        }
      case None =>
        assert Scan(t, from) == Scan(t, from + 1);
        ScanBetween(t, from + 1);
    }
  }

  /**
   * `matchAll` / `findall` on the page text: the successive non-overlapping
   * matches, left to right. Each hit is the match of the page pattern at
   * its position, hits do not overlap, and no match starting before the
   * first hit, between two hits or after the last one is skipped.
   */
  function ScanText(s: string, sc: Scanner): (hits: seq<Hit>)
    ensures forall k :: 0 <= k < |hits| ==> hits[k].at < |s| && HitAt(s, hits[k].at, sc) == Some(hits[k])
    ensures forall k :: 0 <= k < |hits| - 1 ==> hits[k].id.end <= hits[k + 1].at
    ensures forall p :: 0 <= p < |s| && (hits == [] || p < hits[0].at) ==> HitAt(s, p, sc).None?
    ensures forall k, p :: 0 <= k < |hits| - 1 && hits[k].id.end <= p < hits[k + 1].at ==> HitAt(s, p, sc).None?
    ensures hits != [] ==> forall p :: hits[|hits| - 1].id.end <= p < |s| ==> HitAt(s, p, sc).None?
  {
    var t := HitTable(s, sc);
    HitTableWellFormed(s, sc);
    ScanFirst(t, 0);
    ScanBetween(t, 0);
    ScanLast(t, 0);
    Scan(t, 0)
  }

  /** The identifiers the hits capture, in order. */
  function Captures(s: string, hits: seq<Hit>): (ids: seq<string>)
    requires forall k :: 0 <= k < |hits| ==> hits[k].id.start <= hits[k].id.end <= |s|
    ensures |ids| == |hits|
    ensures forall k :: 0 <= k < |hits| ==> ids[k] == s[hits[k].id.start..hits[k].id.end]
    decreases |hits|
  {
    if hits == [] then [] else [s[hits[0].id.start..hits[0].id.end]] + Captures(s, hits[1..])
  }

  /** All captured identifiers of the page, with repetitions, in page order. */
  function AllCaptures(text: string, sc: Scanner): seq<string> {
    var hits := ScanText(text, sc);
    Captures(text, hits)
  }

  /** Keeps the first occurrence of each element (`[...new Set(xs)]`, which iterates in insertion order). */
  function Dedup(xs: seq<string>): (r: seq<string>)
    ensures forall x :: x in r <==> x in xs
    ensures forall i, j :: 0 <= i < j < |r| ==> r[i] != r[j]
    decreases |xs|
  {
    if xs == [] then []
    else
      var d := Dedup(xs[..|xs| - 1]);
      var x := xs[|xs| - 1];
      assert xs == xs[..|xs| - 1] + [x];
      if x in d then d else d + [x]
  }

  /** Index of the first occurrence of `x` in `xs`. */
  function FirstIndex(xs: seq<string>, x: string): (i: nat)
    requires x in xs
    ensures i < |xs| && xs[i] == x && x !in xs[..i]
    decreases |xs|
  {
    if xs[0] == x then 0 else 1 + FirstIndex(xs[1..], x)
  }

  /** A first occurrence inside a prefix is the first occurrence in the whole sequence. */
  lemma FirstIndexPrefix(ys: seq<string>, z: string, x: string)
    requires x in ys
    ensures FirstIndex(ys + [z], x) == FirstIndex(ys, x)
  {
    var j := FirstIndex(ys, x);
    assert (ys + [z])[j] == x;
  }

  /** `Dedup` lists the distinct elements in order of their first occurrence. */
  lemma {:induction false} DedupOrder(xs: seq<string>)
    ensures forall i, j :: 0 <= i < j < |Dedup(xs)| ==>
              FirstIndex(xs, Dedup(xs)[i]) < FirstIndex(xs, Dedup(xs)[j])
    decreases |xs|
  {
    if xs != [] {
      var ys, x := xs[..|xs| - 1], xs[|xs| - 1];
      assert xs == ys + [x];
      var d := Dedup(ys);
      DedupOrder(ys);
      forall y | y in d
        ensures FirstIndex(xs, y) == FirstIndex(ys, y)
      {
        FirstIndexPrefix(ys, x, y);
      }
      if x !in d {
        assert FirstIndex(xs, x) == |ys|;
        assert Dedup(xs) == d + [x];
      }
    }
  }

  /** The extension's page scanner: the distinct captured identifiers in first-occurrence order. */
  function ExtensionPageIds(text: string): seq<string> {
    Dedup(AllCaptures(text, ExtensionScanner))
  }

  /** The script's page scanner: the set of captured identifiers (`set(re.findall(...))`). */
  function ScriptPageIds(text: string): set<string> {
    set x | x in AllCaptures(text, ScriptScanner)
  }

  /**
   * The `k`-th hit of a scan: the page prefix matches at its position and
   * ends where the captured identifier begins, and the capture is the
   * greedy (longest) identifier match there.
   */
  lemma HitSpec(text: string, sc: Scanner, k: nat)
    requires k < |ScanText(text, sc)|
    ensures var h := ScanText(text, sc)[k];
            && h.at < h.id.start < h.id.end <= |text|
            && PrefixEnd(text, h.at, sc) == Some(h.id.start)
            && MatchAt(text, h.id.start, SuffixOf(sc)) == Some(h.id.end)
            && IsId(text[h.id.start..h.id.end], SuffixOf(sc))
  {
    var h := ScanText(text, sc)[k];
    MatchAtSound(text, h.id.start, SuffixOf(sc));
  }

  /** A captured identifier comes from some hit, which `HitSpec` describes. */
  lemma CaptureOrigin(text: string, sc: Scanner, x: string) returns (k: nat)
    requires x in AllCaptures(text, sc)
    ensures k < |ScanText(text, sc)|
    ensures x == text[ScanText(text, sc)[k].id.start..ScanText(text, sc)[k].id.end]
  {
    ScanTextBounded(text, sc);
    k := CaptureIndex(text, ScanText(text, sc), x);
  }

  /** Every hit's identifier lies inside the text. */
  lemma ScanTextBounded(s: string, sc: Scanner)
    ensures var hits := ScanText(s, sc);
            forall k :: 0 <= k < |hits| ==> hits[k].id.start <= hits[k].id.end <= |s|
  {
    var hits := ScanText(s, sc);
    forall k | 0 <= k < |hits|
      ensures hits[k].id.start <= hits[k].id.end <= |s|
    {
      assert HitAt(s, hits[k].at, sc) == Some(hits[k]);
    }
  }

  /** An identifier among the captures of some hits is the text of one of them. */
  lemma CaptureIndex(s: string, hits: seq<Hit>, x: string) returns (k: nat)
    requires forall k :: 0 <= k < |hits| ==> hits[k].id.start <= hits[k].id.end <= |s|
    requires x in Captures(s, hits)
    ensures k < |hits| && x == s[hits[k].id.start..hits[k].id.end]
  {
    var ids := Captures(s, hits);
    k :| 0 <= k < |ids| && ids[k] == x;
  }

  /**
   * The extension's page scanner returns distinct identifiers, in the order
   * of their first occurrence among the matches, and each one is a
   * `v`-or-`V` versioned identifier.
   */
  lemma ExtensionPageIdsSpec(text: string)
    ensures var ids := ExtensionPageIds(text);
            && (forall i, j :: 0 <= i < j < |ids| ==> ids[i] != ids[j])
            && (forall x :: x in ids <==> x in AllCaptures(text, ExtensionScanner))
            && (forall i, j :: 0 <= i < j < |ids| ==>
                  FirstIndex(AllCaptures(text, ExtensionScanner), ids[i]) <
                  FirstIndex(AllCaptures(text, ExtensionScanner), ids[j]))
            && (forall x :: x in ids ==> IsId(x, Version(true)))
  {
    var all := AllCaptures(text, ExtensionScanner);
    DedupOrder(all);
    forall x | x in ExtensionPageIds(text)
      ensures IsId(x, Version(true))
    {
      var k := CaptureOrigin(text, ExtensionScanner, x);
      HitSpec(text, ExtensionScanner, k);
    }
  }

  /** The captured text of a match is where the text after its page prefix starts. */
  lemma CaptureFollowsPrefix(text: string, q: nat, e: nat)
    requires q <= e <= |text|
    ensures StartsWith(text[q..], text[q..e])
  {
    assert text[q..][..e - q] == text[q..e];
  }

  /**
   * Every identifier the extension's scanner returns follows, case
   * insensitively, `arxiv.org/<word>/` or `arxiv:` plus optional whitespace.
   */
  lemma ExtensionPageIdsPrefixed(text: string, x: string)
    requires x in ExtensionPageIds(text)
    ensures exists p: nat, q: nat :: p < q <= |text| &&
              (SitePathPrefix(text, p) == Some(q) || ColonPrefix(text, p) == Some(q)) &&
              StartsWith(text[q..], x)
  {
    var k := CaptureOrigin(text, ExtensionScanner, x);
    HitSpec(text, ExtensionScanner, k);
    var h := ScanText(text, ExtensionScanner)[k];
    var p, q := h.at, h.id.start;
    CaptureFollowsPrefix(text, q, h.id.end);
    assert PrefixEnd(text, p, ExtensionScanner) == Some(q);
    assert SitePathPrefix(text, p) == Some(q) || ColonPrefix(text, p) == Some(q);
    assert p < q <= |text| && StartsWith(text[q..], x);
  }

  /**
   * The script's page scanner collects unversioned identifiers, each one
   * following `http(s)://arxiv.org/<word>/`, case-insensitively.
   */
  lemma ScriptPageIdsSpec(text: string, x: string)
    requires x in ScriptPageIds(text)
    ensures IsId(x, NoVersion)
    ensures exists p: nat, q: nat :: p < q <= |text| && LinkPrefix(text, p) == Some(q) && StartsWith(text[q..], x)
  {
    var k := CaptureOrigin(text, ScriptScanner, x);
    HitSpec(text, ScriptScanner, k);
    var h := ScanText(text, ScriptScanner)[k];
    var p, q := h.at, h.id.start;
    CaptureFollowsPrefix(text, q, h.id.end);
    assert LinkPrefix(text, p) == Some(q);
    assert p < q <= |text| && StartsWith(text[q..], x);
  }
}
