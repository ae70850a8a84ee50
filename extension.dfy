/**
 * The extension's download logic (chrome_ext/arxiv_download.js): routing
 * the user's input to a list of identifiers, and for each identifier the
 * PDF address and file name handed to `chrome.downloads.download`.
 *
 * The arXiv title lookup is an oracle from identifier to title (None where
 * the API reports no entry, answers with an error status or cannot be
 * reached); the text the active-tab script reads is a parameter (None where
 * the script fails, for example on a PDF viewer without text).
 */
module Extension {
  import opened Wrappers
  import opened Text
  import opened Sanitizer
  import opened ArxivId
  import opened PageScan
  import opened Links
  import JsReplace

  /** The file name pattern used when none (or an empty one) is given. */
  const DefaultPattern := "{arxiv_id} - {title}"

  /** A `chrome.downloads.download` request: the PDF address and the file name it is saved under. */
  datatype Download = Download(url: string, filename: string)

  /** The title lookup (`getPaperTitleFromArxiv`). */
  type TitleOracle = string -> Option<string>

  /** The lookup gives a title that is neither null nor empty (`!title` is false). */
  predicate HasTitle(titles: TitleOracle, id: string) {
    titles(id).Some? && titles(id).value != ""
  }

  /**
   * `downloadPdf(link, folder, pattern)`: the identifier is the last
   * '/'-segment of the link; with no title, or an empty one, nothing is
   * requested. The folder argument is never read, so it is not a parameter.
   */
  function DownloadPdf(link: string, pattern: string, titles: TitleOracle): (r: Option<Download>)
    ensures r.Some? <==> HasTitle(titles, LastSegment(link))
    ensures r.Some? ==> r.value.url == PdfUrl(LastSegment(link)) && |r.value.filename| >= 4
    ensures r.Some? ==> r.value.filename[|r.value.filename| - 4..] == ".pdf"
    ensures r.Some? ==>
              r.value.filename == JsReplace.FileName(pattern, LastSegment(link), Sanitize(titles(LastSegment(link)).value)) + ".pdf"
  {
    var id := LastSegment(link);
    match titles(id)
    case None => None
    case Some(title) =>
      if title == "" then None
      else
        var name := JsReplace.FileName(pattern, id, Sanitize(title)) + ".pdf";
        assert name[|name| - 4..] == ".pdf";
        Some(Download(PdfUrl(id), name))
  }

  /**
   * For the link `main` builds from a '/'-free identifier, the request is
   * for that identifier's PDF, and under the default pattern the file is
   * `<id> - <sanitised title>.pdf` (for identifiers and titles without `$`
   * or `{`, which `String.replace` would interpret).
   */
  lemma DownloadPdfOfId(id: string, titles: TitleOracle)
    requires '/' !in id && '$' !in id && '{' !in id
    ensures var r := DownloadPdf(AbsLink(id), DefaultPattern, titles);
            && (r.Some? <==> HasTitle(titles, id))
            && (r.Some? && '$' !in Sanitize(titles(id).value) ==>
                  r.value == Download(PdfUrl(id), id + " - " + Sanitize(titles(id).value) + ".pdf"))
  {
    LastSegmentAfterSlash("https://arxiv.org/abs/", id);
    if titles(id).Some? && '$' !in Sanitize(titles(id).value) {
      JsReplace.FileNameDefault(id, Sanitize(titles(id).value));
    }
  }

  /** `customFilenamePattern || "{arxiv_id} - {title}"`: a missing or empty pattern means the default. */
  function EffectivePattern(custom: Option<string>): (p: string)
    ensures p != []
    ensures custom.Some? && custom.value != [] ==> p == custom.value
  {
    match custom
    case Some(p) => if p == "" then DefaultPattern else p
    case None => DefaultPattern
  }

  /**
   * `extractArxivIds(input)`: the first identifier anywhere in the input
   * (two branches, one for `arxiv.org` links and one for the rest, with the
   * same result); failing that, for `http` and `file:///` input, the
   * identifiers the page scanner finds in the active tab; otherwise none.
   */
  function ExtractArxivIds(input: string, tab: Option<string>): seq<string> {
    if Contains(input, "arxiv.org") && FirstId(input).Some? then [FirstId(input).value]
    else if FirstId(input).Some? then [FirstId(input).value]
    else if StartsWith(input, "http") || StartsWith(input, "file:///") then
      match tab
      case None => []
      case Some(text) => ExtensionPageIds(text)
    else []
  }

  /**
   * When some substring of the input is an identifier, the result is the
   * single leftmost-longest one, whether or not `arxiv.org` occurs; when
   * none is and the input starts with neither `http` nor `file:///`, the
   * result is empty; in between, it is what the page scanner returns.
   */
  lemma ExtractArxivIdsSpec(input: string, tab: Option<string>)
    ensures var ids := ExtractArxivIds(input, tab);
            && ((exists i: nat, e: nat :: MatchesAt(input, i, e, Version(false))) ==>
                  |ids| == 1 && exists i: nat, e: nat :: LeftmostLongest(input, i, e, Version(false)) && ids[0] == input[i..e])
            && ((forall i: nat, e: nat :: !MatchesAt(input, i, e, Version(false))) ==>
                  ids == (if (!StartsWith(input, "http") && !StartsWith(input, "file:///")) || tab.None? then []
                          else ExtensionPageIds(tab.value)))
  {
    FirstIdSpec(input);
  }

  /**
   * `main`'s choice of identifiers: the first identifier of an `arxiv.org`
   * link (or none), `extractArxivIds` for other `http` input, otherwise the
   * `[, ]+`-separated tokens that are whole identifiers.
   */
  function RouteIds(arxiv: string, tab: Option<string>): seq<string> {
    if Contains(arxiv, "arxiv.org") then
      match FirstId(arxiv)
      case Some(x) => [x]
      case None => []
    else if StartsWith(arxiv, "http") then ExtractArxivIds(arxiv, tab)
    else KeepIds(Split(arxiv, CommaOrSpace))
  }

  /**
   * Input with `arxiv.org` gives its leftmost-longest identifier, or nothing
   * when it holds none; input that neither mentions `arxiv.org` nor starts
   * with `http` gives exactly its tokens that are whole identifiers.
   */
  lemma RouteIdsSpec(arxiv: string, tab: Option<string>)
    ensures var ids := RouteIds(arxiv, tab);
            && (Contains(arxiv, "arxiv.org") ==>
                  && (ids == [] <==> forall i: nat, e: nat :: !MatchesAt(arxiv, i, e, Version(false)))
                  && (ids != [] ==>
                        && |ids| == 1
                        && exists i: nat, e: nat :: LeftmostLongest(arxiv, i, e, Version(false)) && ids[0] == arxiv[i..e]))
            && (!Contains(arxiv, "arxiv.org") && !StartsWith(arxiv, "http") ==>
                  forall t :: t in ids <==> t in Split(arxiv, CommaOrSpace) && IsArxivId(t))
  {
    FirstIdSpec(arxiv);
  }

  /** Identifiers hold no '/'. */
  lemma IdsSlashFree(ids: seq<string>, sfx: Suffix)
    requires forall k :: 0 <= k < |ids| ==> IsId(ids[k], sfx)
    ensures forall k :: 0 <= k < |ids| ==> '/' !in ids[k]
  {
    forall k | 0 <= k < |ids|
      ensures '/' !in ids[k]
    {
      IdChars(ids[k], sfx);
    }
  }

  /** Every identifier `main` acts on is '/'-free, so `downloadPdf` recovers it from the link. */
  lemma RouteIdsSlashFree(arxiv: string, tab: Option<string>)
    ensures forall k :: 0 <= k < |RouteIds(arxiv, tab)| ==> '/' !in RouteIds(arxiv, tab)[k]
  {
    var ids := RouteIds(arxiv, tab);
    if FirstId(arxiv).Some? && (Contains(arxiv, "arxiv.org") || StartsWith(arxiv, "http")) {
      FirstIdIsId(arxiv);
      IdsSlashFree(ids, Version(false));
    } else if !Contains(arxiv, "arxiv.org") && StartsWith(arxiv, "http") {
      if tab.Some? {
        ExtensionPageIdsSpec(tab.value);
        IdsSlashFree(ids, Version(true));
      }
    } else if !Contains(arxiv, "arxiv.org") {
      forall k | 0 <= k < |ids|
        ensures IsId(ids[k], Version(false))
      {
        FullMatchIsId(ids[k], Version(false));
      }
      IdsSlashFree(ids, Version(false));
    }
  }

  /** A whole identifier is a non-empty token free of separators, `a` and `h`. */
  lemma IdToken(t: string)
    requires IsArxivId(t)
    ensures t != [] && NoneIn(t, CommaOrSpace) && 'a' !in t && 'h' !in t
  {
    FullMatchIsId(t, Version(false));
    IdChars(t, Version(false));
  }

  /** Joining tokens free of `a` and `h` with `", "` gives a text that neither names `arxiv.org` nor starts with `http`. */
  lemma JoinedTokensUnmarked(ids: seq<string>)
    requires forall k :: 0 <= k < |ids| ==> 'a' !in ids[k] && 'h' !in ids[k]
    ensures !Contains(JoinWith(ids, ", "), "arxiv.org") && !StartsWith(JoinWith(ids, ", "), "http")
  {
    JoinWithChars(ids, ", ", 'a');
    AbsentFirstChar(JoinWith(ids, ", "), "arxiv.org");
    JoinWithChars(ids, ", ", 'h');
    AbsentFirstChar(JoinWith(ids, ", "), "http");
  }

  /** A comma-and-space join of whole identifiers neither names `arxiv.org` nor starts with `http`, and splits back. */
  lemma JoinedIds(ids: seq<string>)
    requires |ids| >= 1 && forall k :: 0 <= k < |ids| ==> IsArxivId(ids[k])
    ensures var s := JoinWith(ids, ", ");
            !Contains(s, "arxiv.org") && !StartsWith(s, "http") && Split(s, CommaOrSpace) == ids
  {
    IdTokens(ids);
    JoinedTokensUnmarked(ids);
    JoinedTokensSplit(ids);
  }

  /** Non-empty tokens free of separators, joined with `", "`, split back into those tokens. */
  lemma JoinedTokensSplit(ids: seq<string>)
    requires |ids| >= 1 && forall k :: 0 <= k < |ids| ==> ids[k] != [] && NoneIn(ids[k], CommaOrSpace)
    ensures Split(JoinWith(ids, ", "), CommaOrSpace) == ids
  {
    assert InClass(", "[0], CommaOrSpace) && InClass(", "[1], CommaOrSpace);
    SplitJoin(ids, ", ", CommaOrSpace);
  }

  /** Whole identifiers are non-empty tokens free of separators, `a` and `h`. */
  lemma IdTokens(ids: seq<string>)
    requires forall k :: 0 <= k < |ids| ==> IsArxivId(ids[k])
    ensures forall k :: 0 <= k < |ids| ==> ids[k] != [] && NoneIn(ids[k], CommaOrSpace) && 'a' !in ids[k] && 'h' !in ids[k]
  {
    forall k | 0 <= k < |ids|
      ensures ids[k] != [] && NoneIn(ids[k], CommaOrSpace) && 'a' !in ids[k] && 'h' !in ids[k]
    {
      IdToken(ids[k]);
    }
  }

  /**
   * A comma-and-space list of whole identifiers is routed to exactly those
   * identifiers, in order; a single identifier is routed to itself.
   */
  lemma RouteIdList(ids: seq<string>, tab: Option<string>)
    requires |ids| >= 1 && forall k :: 0 <= k < |ids| ==> IsArxivId(ids[k])
    ensures RouteIds(JoinWith(ids, ", "), tab) == ids
  {
    JoinedIds(ids);
    KeepIdsAll(ids);
  }

  /** The requests made for a sequence of `downloadPdf` calls, in call order. */
  function DownloadsFor(links: seq<string>, pattern: string, titles: TitleOracle): seq<Download>
    decreases |links|
  {
    if links == [] then []
    else
      var last := DownloadPdf(links[|links| - 1], pattern, titles);
      DownloadsFor(links[..|links| - 1], pattern, titles) + (if last.Some? then [last.value] else [])
  }

  /** Links whose identifier has no title (or an empty one) lead to no request at all. */
  lemma {:induction false} DownloadsForNoTitles(links: seq<string>, pattern: string, titles: TitleOracle)
    requires forall k :: 0 <= k < |links| ==> !HasTitle(titles, LastSegment(links[k]))
    ensures DownloadsFor(links, pattern, titles) == []
    decreases |links|
  {
    if links != [] {
      DownloadsForNoTitles(links[..|links| - 1], pattern, titles);
    }
  }

  /** When every identifier has a title, there is one request per link, in link order, each for its own PDF. */
  lemma {:induction false} DownloadsForAllTitles(links: seq<string>, pattern: string, titles: TitleOracle)
    requires forall k :: 0 <= k < |links| ==> HasTitle(titles, LastSegment(links[k]))
    ensures var ds := DownloadsFor(links, pattern, titles);
            && |ds| == |links|
            && (forall k :: 0 <= k < |links| ==> ds[k].url == PdfUrl(LastSegment(links[k])))
            && (forall k :: 0 <= k < |links| ==> ds[k] == DownloadPdf(links[k], pattern, titles).value)
    decreases |links|
  {
    if links != [] {
      var n := |links| - 1;
      var init := links[..n];
      DownloadsForAllTitles(init, pattern, titles);
      var d := DownloadPdf(links[n], pattern, titles);
      var ds := DownloadsFor(init, pattern, titles) + [d.value];
      assert DownloadsFor(links, pattern, titles) == ds;
      forall k | 0 <= k < |links|
        ensures ds[k].url == PdfUrl(LastSegment(links[k]))
        ensures ds[k] == DownloadPdf(links[k], pattern, titles).value
      {
        if k < n {
          assert links[k] == init[k];
        }
      }
    }
  }

  /** There is never more than one request per link. */
  lemma {:induction false} DownloadsForAtMost(links: seq<string>, pattern: string, titles: TitleOracle)
    ensures |DownloadsFor(links, pattern, titles)| <= |links|
    decreases |links|
  {
    if links != [] {
      DownloadsForAtMost(links[..|links| - 1], pattern, titles);
    }
  }

  /**
   * For '/'-free identifiers: when each has a title there is exactly one
   * request per identifier, in order, for that identifier's PDF under the
   * name the pattern gives with its sanitised title; when none
   * has, there is no request.
   */
  lemma DownloadsForIds(ids: seq<string>, pattern: string, titles: TitleOracle)
    requires forall k :: 0 <= k < |ids| ==> '/' !in ids[k]
    ensures var ds := DownloadsFor(AbsLinks(ids), pattern, titles);
            && ((forall k :: 0 <= k < |ids| ==> HasTitle(titles, ids[k])) ==>
                  && |ds| == |ids|
                  && (forall k :: 0 <= k < |ids| ==> ds[k].url == PdfUrl(ids[k]))
                  && (forall k :: 0 <= k < |ids| ==>
                        ds[k].filename == JsReplace.FileName(pattern, ids[k], Sanitize(titles(ids[k]).value)) + ".pdf"))
            && ((forall k :: 0 <= k < |ids| ==> !HasTitle(titles, ids[k])) ==> ds == [])
  {
    var links := AbsLinks(ids);
    AbsLinksRecover(ids);
    if forall k :: 0 <= k < |ids| ==> HasTitle(titles, ids[k]) {
      DownloadsForAllTitles(links, pattern, titles);
    }
    if forall k :: 0 <= k < |ids| ==> !HasTitle(titles, ids[k]) {
      DownloadsForNoTitles(links, pattern, titles);
    }
  }

  /**
   * `main`'s loop: one `downloadPdf` call per identifier, in order, on its
   * abstract link; `links` are the calls made and `downloads` the requests
   * they issue.
   */
  method DownloadEach(ids: seq<string>, pattern: string, titles: TitleOracle)
    returns (links: seq<string>, downloads: seq<Download>)
    requires forall k :: 0 <= k < |ids| ==> '/' !in ids[k]
    ensures links == AbsLinks(ids)
    ensures forall k :: 0 <= k < |ids| ==> LastSegment(links[k]) == ids[k]
    ensures downloads == DownloadsFor(links, pattern, titles)
  {
    links, downloads := [], [];
    for i := 0 to |ids|
      invariant links == AbsLinks(ids[..i])
      invariant downloads == DownloadsFor(links, pattern, titles)
    {
      var link := AbsLink(ids[i]);
      var d := DownloadPdf(link, pattern, titles);
      assert (links + [link])[..i] == links;
      AbsLinksSnoc(ids, i);
      links := links + [link];
      if d.Some? {
        downloads := downloads + [d.value];
      }
    }
    assert ids[..|ids|] == ids;
    AbsLinksRecover(ids);
  }

  /**
   * `main(arxiv, folder, customFilenamePattern)`: routes the input to a
   * list of identifiers and downloads each in turn; no identifier, no call.
   */
  method RunMain(arxiv: string, customPattern: Option<string>, tab: Option<string>, titles: TitleOracle)
    returns (links: seq<string>, downloads: seq<Download>)
    ensures var ids := RouteIds(arxiv, tab);
            && links == AbsLinks(ids)
            && (forall k :: 0 <= k < |ids| ==> LastSegment(links[k]) == ids[k])
            && downloads == DownloadsFor(links, EffectivePattern(customPattern), titles)
  {
    var pattern := EffectivePattern(customPattern);
    var ids := RouteIds(arxiv, tab);
    if |ids| == 0 {
      return [], [];
    }
    RouteIdsSlashFree(arxiv, tab);
    links, downloads := DownloadEach(ids, pattern, titles);
  }
}
