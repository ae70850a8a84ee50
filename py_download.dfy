/**
 * `download_pdf` and the download loop, the part the two command-line
 * scripts (python/arxiv_download.py and arxiv_download.py) share word for
 * word.
 *
 * The arXiv title lookup is an oracle from identifier to `TitleLookup`;
 * what `~` expands to is a parameter. A call ends in one of three ways: a
 * PDF request for a file path, a skip (the API has no entry), or an
 * exception that leaves `download_pdf` and ends the script.
 */
module PyDownload {
  import opened Wrappers
  import opened Text
  import opened Sanitizer
  import opened PyFormat
  import opened ArxivId
  import opened Links

  /** The file name pattern used when the configuration gives none. */
  const DefaultPattern := "{arxiv_id} - {title}"

  /**
   * What `get_paper_title_from_arxiv` gives: the text of the entry's title
   * element (stripped by the caller), no entry (it returns None), or an
   * exception (error status, unreachable server, unreadable answer).
   */
  datatype TitleLookup = Title(text: string) | NoEntry | LookupRaised

  type TitleApi = string -> TitleLookup

  /** How one `download_pdf` call ends. */
  datatype Outcome = Fetch(url: string, path: string) | Skipped | Raised

  /** `os.path.join(a, b)` on POSIX. */
  function PathJoin(a: string, b: string): (r: string)
    ensures |b| <= |r| && r[|r| - |b|..] == b
    ensures !StartsWith(b, "/") ==> |a| <= |r| && r[..|a|] == a
    ensures |r| == |b| || r[|r| - |b| - 1] == '/'
  {
    if StartsWith(b, "/") then b
    else if a == [] || a[|a| - 1] == '/' then a + b
    else a + "/" + b
  }

  /** A '/'-free name joined to a folder is the last segment of the path: the file lands in that folder. */
  lemma PathJoinName(folder: string, name: string)
    requires '/' !in name
    ensures LastSegment(PathJoin(folder, name)) == name
    ensures folder != [] && folder[|folder| - 1] != '/' ==> PathJoin(folder, name) == folder + "/" + name
  {
    if name != [] {
      assert name[0] != '/';
    }
    assert !StartsWith(name, "/");
    if folder == [] {
      assert PathJoin(folder, name) == name;
      LastSegmentWhole(name);
    } else if folder[|folder| - 1] == '/' {
      LastSegmentAfterSlash(folder, name);
    } else {
      assert folder + "/" + name == (folder + "/") + name;
      LastSegmentAfterSlash(folder + "/", name);
    }
  }

  /** The folder `download_pdf` saves into: the given one, or `~/Downloads` when it is None or empty. */
  function DownloadFolder(folder: Option<string>, home: string): (r: string)
    ensures folder.Some? && folder.value != [] ==> r == folder.value
    ensures folder.None? || folder.value == [] ==> r == PathJoin(home, "Downloads")
  {
    if folder.None? || folder.value == [] then PathJoin(home, "Downloads") else folder.value
  }

  /**
   * `download_pdf(arxiv_link, download_folder, proxies, filename_pattern)`:
   * the identifier is the link's last '/'-segment; no entry skips; a lookup
   * exception or a pattern `format` rejects escapes; otherwise the PDF of
   * that identifier is requested for `<folder>/<formatted name>.pdf`.
   */
  function DownloadPdf(link: string, folder: Option<string>, home: string, pattern: string, titles: TitleApi): Outcome
  {
    var id := LastSegment(link);
    match titles(id)
    case LookupRaised => Raised
    case NoEntry => Skipped
    case Title(text) =>
      match Format(pattern, id, Sanitize(Trim(text)))
      case None => Raised
      case Some(name) => Fetch(PdfUrl(id), PathJoin(DownloadFolder(folder, home), name + ".pdf"))
  }
  /**
   * A call skips exactly when the API has no entry, raises exactly when the
   * lookup raises or `format` rejects the pattern, and otherwise requests
   * the PDF of the link's identifier for the formatted name in the folder.
   */
  lemma DownloadPdfSpec(link: string, folder: Option<string>, home: string, pattern: string, titles: TitleApi)
    ensures var id := LastSegment(link);
            var r := DownloadPdf(link, folder, home, pattern, titles);
            && (r.Skipped? <==> titles(id).NoEntry?)
            && (r.Raised? <==> titles(id).LookupRaised? ||
                               (titles(id).Title? && Format(pattern, id, Sanitize(Trim(titles(id).text))).None?))
            && (r.Fetch? ==> r.url == PdfUrl(id) && titles(id).Title? &&
                             var name := Format(pattern, id, Sanitize(Trim(titles(id).text))).value;
                             r.path == PathJoin(DownloadFolder(folder, home), name + ".pdf"))
  {
  }

  /** A sanitised title holds no '/'. */
  lemma SanitizedNoSlash(t: string)
    ensures '/' !in Sanitize(t)
  {
    SanitizeSpec(t);
    var c := Sanitize(t);
    forall i | 0 <= i < |c|
      ensures c[i] != '/'
    {
      assert !IsForbidden(c[i]);
    }
  }

  /**
   * With the default pattern and a title, the PDF of the link's identifier
   * is requested for `<id> - <sanitised title>.pdf`, directly inside the
   * download folder.
   */
  lemma DownloadPdfDefault(link: string, folder: Option<string>, home: string, titles: TitleApi)
    requires titles(LastSegment(link)).Title?
    ensures var id := LastSegment(link);
            var name := id + " - " + Sanitize(Trim(titles(id).text)) + ".pdf";
            var path := PathJoin(DownloadFolder(folder, home), name);
            && DownloadPdf(link, folder, home, DefaultPattern, titles) == Fetch(PdfUrl(id), path)
            && LastSegment(path) == name
  {
    var id := LastSegment(link);
    var title := Sanitize(Trim(titles(id).text));
    FormatDefault(id, title);
    SanitizedNoSlash(Trim(titles(id).text));
    var name := id + " - " + title + ".pdf";
    NameNoSlash(id, title);
    PathJoinName(DownloadFolder(folder, home), name);
  }

  /** The default file name holds no '/' when neither the identifier nor the title does. */
  lemma NameNoSlash(id: string, title: string)
    requires '/' !in id && '/' !in title
    ensures '/' !in id + " - " + title + ".pdf"
  {
    var name := id + " - " + title + ".pdf";
    forall i | 0 <= i < |name|
      ensures name[i] != '/'
    {
      if i < |id| {
        assert name[i] == id[i];
      } else if i >= |id| + 3 && i < |id| + 3 + |title| {
        assert name[i] == title[i - |id| - 3];
      }
    }
  }

  /** A title that is blank once stripped is still used: the file is named `<id> - .pdf`. */
  lemma DownloadPdfBlankTitle(link: string, folder: Option<string>, home: string, titles: TitleApi)
    requires titles(LastSegment(link)).Title? && Trim(titles(LastSegment(link)).text) == []
    ensures var id := LastSegment(link);
            DownloadPdf(link, folder, home, DefaultPattern, titles) ==
              Fetch(PdfUrl(id), PathJoin(DownloadFolder(folder, home), id + " - .pdf"))
  {
    var id := LastSegment(link);
    var text := titles(id).text;
    DownloadPdfDefault(link, folder, home, titles);
    SanitizeClean(Trim(text));
    BlankName(id, Sanitize(Trim(text)));
  }

  /** With an empty title the name is `<id> - .pdf`. */
  lemma BlankName(id: string, title: string)
    requires title == []
    ensures id + " - " + title + ".pdf" == id + " - .pdf"
  {
    assert " - " + ".pdf" == " - .pdf";
    assert (id + " - ") + ".pdf" == id + (" - " + ".pdf");
  }

  /** `re.split(r'[,\s]+', arg.strip())`: the tokens the scripts download, one call each. */
  function Tokens(arg: string): (tokens: seq<string>)
    ensures |tokens| >= 1
    ensures forall k :: 0 <= k < |tokens| ==> NoneIn(tokens[k], CommaOrWhitespace)
  {
    Split(Trim(arg), CommaOrWhitespace)
  }

  /**
   * A list of identifiers joined with `", "` (as the page extraction
   * produces, or as a user types it) splits back into those identifiers.
   */
  lemma TokensOfIdList(ids: seq<string>, sfx: Suffix)
    requires |ids| >= 1
    requires forall k :: 0 <= k < |ids| ==> IsId(ids[k], sfx)
    ensures Tokens(JoinWith(ids, ", ")) == ids
  {
    IdListPieces(ids, sfx);
    IdListEnds(ids, sfx);
    TokensOfPieces(ids);
  }

  /** Splitting back a `", "`-join of comma- and whitespace-free pieces that starts and ends with a digit. */
  lemma TokensOfPieces(ids: seq<string>)
    requires |ids| >= 1
    requires forall k :: 0 <= k < |ids| ==> ids[k] != [] && NoneIn(ids[k], CommaOrWhitespace)
    requires var j := JoinWith(ids, ", "); j != [] && IsDigit(j[0]) && IsDigit(j[|j| - 1])
    ensures Tokens(JoinWith(ids, ", ")) == ids
  {
    var j := JoinWith(ids, ", ");
    TrimNoop(j);
    assert InClass(", "[0], CommaOrWhitespace) && InClass(", "[1], CommaOrWhitespace);
    SplitJoin(ids, ", ", CommaOrWhitespace);
  }

  /** Identifiers are non-empty and hold no comma or whitespace. */
  lemma IdListPieces(ids: seq<string>, sfx: Suffix)
    requires forall k :: 0 <= k < |ids| ==> IsId(ids[k], sfx)
    ensures forall k :: 0 <= k < |ids| ==> ids[k] != [] && NoneIn(ids[k], CommaOrWhitespace)
  {
    forall k | 0 <= k < |ids|
      ensures ids[k] != [] && NoneIn(ids[k], CommaOrWhitespace)
    {
      IdChars(ids[k], sfx);
    }
  }

  /** A `", "`-join of identifiers starts and ends with a digit, so stripping leaves it alone. */
  lemma IdListEnds(ids: seq<string>, sfx: Suffix)
    requires |ids| >= 1
    requires forall k :: 0 <= k < |ids| ==> IsId(ids[k], sfx)
    ensures var j := JoinWith(ids, ", ");
            j != [] && IsDigit(j[0]) && IsDigit(j[|j| - 1])
  {
    IdChars(ids[0], sfx);
    IdChars(ids[|ids| - 1], sfx);
    JoinWithStart(ids, ", ");
    JoinWithEnd(ids, ", ");
  }

  /** The call the loop makes for one token: `download_pdf` on `https://arxiv.org/abs/<token>`. */
  function Attempt(folder: Option<string>, home: string, pattern: string, titles: TitleApi): string -> Outcome {
    token => DownloadPdf(AbsLink(token), folder, home, pattern, titles)
  }

  /** The outcomes of `call` on each token, in order. */
  function Calls(tokens: seq<string>, call: string -> Outcome): (r: seq<Outcome>)
    ensures |r| == |tokens|
    decreases |tokens|
  {
    if tokens == [] then []
    else
      var n := |tokens| - 1;
      Calls(tokens[..n], call) + [call(tokens[n])]
  }

  /** The outcome at each position is the call on the token at that position. */
  lemma {:induction false} CallsAt(tokens: seq<string>, k: nat, call: string -> Outcome)
    requires k < |tokens|
    ensures Calls(tokens, call)[k] == call(tokens[k])
    decreases |tokens|
  {
    var n := |tokens| - 1;
    if k < n {
      CallsAt(tokens[..n], k, call);
    }
  }

  /** The calls for a prefix of the tokens are the prefix of the calls: a call does not depend on the tokens after it. */
  lemma {:induction false} CallsPrefix(tokens: seq<string>, m: nat, call: string -> Outcome)
    requires m <= |tokens|
    ensures Calls(tokens, call)[..m] == Calls(tokens[..m], call)
    decreases |tokens|
  {
    var n := |tokens| - 1;
    if m <= n {
      CallsPrefix(tokens[..n], m, call);
      assert tokens[..n][..m] == tokens[..m];
      var c := Calls(tokens, call);
      assert c[..m] == c[..n][..m];
    } else {
      assert tokens[..m] == tokens;
    }
  }

  /** The calls for one more token: those before it, then its own. */
  lemma CallsStep(tokens: seq<string>, i: nat, call: string -> Outcome)
    requires i < |tokens|
    ensures Calls(tokens[..i + 1], call) == Calls(tokens[..i], call) + [call(tokens[i])]
  {
    assert tokens[..i + 1][..i] == tokens[..i];
  }

  /**
   * What the download loop did with `tokens`: one `download_pdf` call per
   * token, in order, on `https://arxiv.org/abs/<token>`, until the first
   * call that raises, which is the last one made.
   */
  predicate DownloadRun(tokens: seq<string>, outcomes: seq<Outcome>, folder: Option<string>, home: string, pattern: string, titles: TitleApi) {
    && |outcomes| <= |tokens|
    && outcomes == Calls(tokens[..|outcomes|], Attempt(folder, home, pattern, titles))
    && (forall k :: 0 <= k < |outcomes| - 1 ==> !outcomes[k].Raised?)
    && (|outcomes| < |tokens| ==> outcomes != [] && outcomes[|outcomes| - 1].Raised?)
  }

  /** The loop's result is determined by its tokens: there is only one run. */
  lemma DownloadRunUnique(tokens: seq<string>, a: seq<Outcome>, b: seq<Outcome>,
                          folder: Option<string>, home: string, pattern: string, titles: TitleApi)
    requires DownloadRun(tokens, a, folder, home, pattern, titles)
    requires DownloadRun(tokens, b, folder, home, pattern, titles)
    ensures a == b
  {
    if |a| <= |b| {
      ShorterRun(tokens, a, b, folder, home, pattern, titles);
    } else {
      ShorterRun(tokens, b, a, folder, home, pattern, titles);
    }
  }

  /** A run no longer than another is a prefix of it, and so ends at the same raising call. */
  lemma ShorterRun(tokens: seq<string>, a: seq<Outcome>, b: seq<Outcome>,
                   folder: Option<string>, home: string, pattern: string, titles: TitleApi)
    requires DownloadRun(tokens, a, folder, home, pattern, titles)
    requires DownloadRun(tokens, b, folder, home, pattern, titles)
    requires |a| <= |b|
    ensures a == b[..|a|]
    ensures |a| < |b| ==> b[|a| - 1].Raised? && |a| - 1 < |b| - 1
  {
    CallsPrefix(tokens[..|b|], |a|, Attempt(folder, home, pattern, titles));
    assert tokens[..|b|][..|a|] == tokens[..|a|];
  }

  /** When no call raises, every token gets its call; the identifiers used are the tokens' last segments. */
  lemma DownloadRunComplete(tokens: seq<string>, outcomes: seq<Outcome>, folder: Option<string>, home: string, pattern: string, titles: TitleApi)
    requires DownloadRun(tokens, outcomes, folder, home, pattern, titles)
    requires forall k :: 0 <= k < |tokens| ==> !DownloadPdf(AbsLink(tokens[k]), folder, home, pattern, titles).Raised?
    ensures |outcomes| == |tokens|
    ensures forall k :: 0 <= k < |tokens| ==>
              (outcomes[k].Fetch? ==> outcomes[k].url == PdfUrl(LastSegment(tokens[k])))
  {
    if outcomes != [] {
      RunCallAt(tokens, outcomes, |outcomes| - 1, folder, home, pattern, titles);
    }
    forall k | 0 <= k < |tokens|
      ensures outcomes[k].Fetch? ==> outcomes[k].url == PdfUrl(LastSegment(tokens[k]))
    {
      RunCallAt(tokens, outcomes, k, folder, home, pattern, titles);
      AbsLinkId(tokens[k]);
      DownloadPdfSpec(AbsLink(tokens[k]), folder, home, pattern, titles);
    }
  }

  /** Each outcome of a run is the `download_pdf` call on its own token's abs link. */
  lemma RunCallAt(tokens: seq<string>, outcomes: seq<Outcome>, k: nat,
                  folder: Option<string>, home: string, pattern: string, titles: TitleApi)
    requires DownloadRun(tokens, outcomes, folder, home, pattern, titles)
    requires k < |outcomes|
    ensures outcomes[k] == DownloadPdf(AbsLink(tokens[k]), folder, home, pattern, titles)
  {
    CallsAt(tokens[..|outcomes|], k, Attempt(folder, home, pattern, titles));
    assert tokens[..|outcomes|][k] == tokens[k];
  }

  /**
   * The loop `for arxiv_id in arxiv_ids: download_pdf(...)`; an exception
   * from a call ends it (and the script) at once.
   */
  method DownloadTokens(tokens: seq<string>, folder: Option<string>, home: string, pattern: string, titles: TitleApi)
    returns (outcomes: seq<Outcome>)
    ensures DownloadRun(tokens, outcomes, folder, home, pattern, titles)
  {
    var downloadPdf := Attempt(folder, home, pattern, titles);
    outcomes := [];
    var i := 0;
    while i < |tokens|
      invariant i == |outcomes| <= |tokens|
      invariant outcomes == Calls(tokens[..i], downloadPdf)
      invariant forall k :: 0 <= k < i ==> !outcomes[k].Raised?
    {
      var outcome := downloadPdf(tokens[i]);
      CallsStep(tokens, i, downloadPdf);
      outcomes := outcomes + [outcome];
      if outcome.Raised? {
        RunStopped(tokens, outcomes, folder, home, pattern, titles);
        return;
      }
      i := i + 1;
    }
    RunFinished(tokens, outcomes, folder, home, pattern, titles);
  }

  /** Calls on a prefix of the tokens that stop at the first one that raises form a download run. */
  lemma RunStopped(tokens: seq<string>, outcomes: seq<Outcome>,
                   folder: Option<string>, home: string, pattern: string, titles: TitleApi)
    requires 1 <= |outcomes| <= |tokens|
    requires outcomes == Calls(tokens[..|outcomes|], Attempt(folder, home, pattern, titles))
    requires forall k :: 0 <= k < |outcomes| - 1 ==> !outcomes[k].Raised?
    requires outcomes[|outcomes| - 1].Raised?
    ensures DownloadRun(tokens, outcomes, folder, home, pattern, titles)
  {
  }

  /** Calls on all the tokens, none of which raised, form a download run. */
  lemma RunFinished(tokens: seq<string>, outcomes: seq<Outcome>,
                    folder: Option<string>, home: string, pattern: string, titles: TitleApi)
    requires |outcomes| == |tokens|
    requires outcomes == Calls(tokens[..|outcomes|], Attempt(folder, home, pattern, titles))
    requires forall k :: 0 <= k < |outcomes| ==> !outcomes[k].Raised?
    ensures DownloadRun(tokens, outcomes, folder, home, pattern, titles)
  {
  }
}
