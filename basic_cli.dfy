/**
 * The main program of arxiv_download.py: the `--arxiv` argument is split
 * into tokens and each token downloaded in turn, with no routing; a whole
 * link works because `download_pdf` keeps only its last '/'-segment.
 */
module BasicCli {
  import opened Wrappers
  import opened Text
  import opened ArxivId
  import opened Links
  import opened PyDownload

  /** `main()`: split the argument and download each token with the configured folder and pattern. */
  method RunBasic(arg: string, folder: Option<string>, home: string, pattern: string, titles: TitleApi)
    returns (tokens: seq<string>, outcomes: seq<Outcome>)
    ensures tokens == Tokens(arg)
    ensures DownloadRun(tokens, outcomes, folder, home, pattern, titles)
  {
    tokens := Tokens(arg);
    outcomes := DownloadTokens(tokens, folder, home, pattern, titles);
  }

  /**
   * A whole abstract link given as the argument is a single token; the
   * call builds a link from that link, and the identifier it looks up and
   * fetches is still the original one.
   */
  lemma LinkArgument(id: string)
    requires IsId(id, Version(false))
    ensures Tokens(AbsLink(id)) == [AbsLink(id)]
    ensures LastSegment(AbsLink(AbsLink(id))) == id
  {
    var s := AbsLink(id);
    IdChars(id, Version(false));
    assert NoneIn(s, CommaOrWhitespace) by {
      forall i | 0 <= i < |s|
        ensures !InClass(s[i], CommaOrWhitespace)
      {
        if i >= 22 {
          assert s[i] == id[i - 22];
        }
      }
    }
    assert s[0] == 'h' && s[|s| - 1] == id[|id| - 1];
    TrimNoop(s);
    AbsLinkId(s);
    IdFromLink(id);
  }

  /** A list of identifiers typed as `<id>, <id>, ...` gives one call per identifier, in order. */
  lemma ListArgument(ids: seq<string>)
    requires |ids| >= 1 && forall k :: 0 <= k < |ids| ==> IsId(ids[k], Version(false))
    ensures Tokens(JoinWith(ids, ", ")) == ids
    ensures forall k :: 0 <= k < |ids| ==> LastSegment(AbsLink(ids[k])) == ids[k]
  {
    TokensOfIdList(ids, Version(false));
    forall k | 0 <= k < |ids|
      ensures LastSegment(AbsLink(ids[k])) == ids[k]
    {
      IdFromLink(ids[k]);
    }
  }

  /** The identifier `download_pdf` takes from the abs link of an identifier is that identifier. */
  lemma IdFromLink(id: string)
    requires IsId(id, Version(false))
    ensures LastSegment(AbsLink(id)) == id
  {
    IdChars(id, Version(false));
    LastSegmentAfterSlash("https://arxiv.org/abs/", id);
  }
}
