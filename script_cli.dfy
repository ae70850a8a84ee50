/**
 * The main program of python/arxiv_download.py: the `--arxiv` argument is
 * an arXiv link (anything containing `arxiv.org`), a web page address
 * (anything else starting with `http`), whose arXiv links are looked up,
 * or a list of identifiers; the result is split into tokens and each token
 * downloaded in turn.
 *
 * The answer to the page request is a parameter (`PageFetch`); the text of
 * a page is what the HTML parser extracts from it.
 */
module ScriptCli {
  import opened Wrappers
  import opened Text
  import opened ArxivId
  import opened PageScan
  import opened Links
  import opened PyDownload

  /** What `requests.get(weburl)` gives: a page with status 200 (its text), another status, or an exception. */
  datatype PageFetch = PageOk(text: string) | PageNotOk | PageRaised

  /** What the routing at the top of `main` decides: go on with this argument, return quietly, or raise. */
  datatype Routed = Proceed(arg: string) | Stop | Crash

  /** `order` lists every element of `ids` exactly once: one of the orders a set can be iterated in. */
  ghost predicate Enumerates(order: seq<string>, ids: set<string>) {
    && (forall i, j :: 0 <= i < j < |order| ==> order[i] != order[j])
    && (forall x :: x in order <==> x in ids)
  }

  /** An enumeration of a set is as long as the set is large. */
  lemma {:induction false} EnumeratesSize(order: seq<string>, ids: set<string>)
    requires Enumerates(order, ids)
    ensures |order| == |ids|
    decreases |order|
  {
    if order != [] {
      var n := |order| - 1;
      var init := order[..n];
      assert Enumerates(init, ids - {order[n]}) by {
        forall x
          ensures x in init <==> x in ids - {order[n]}
        {
          if x in init {
            var i :| 0 <= i < n && init[i] == x;
            assert order[i] == x;
          }
          if x in order && x != order[n] {
            var i :| 0 <= i < |order| && order[i] == x;
            assert init[i] == x;
          }
        }
      }
      EnumeratesSize(init, ids - {order[n]});
    } else {
      assert forall x :: x !in ids;
    }
  }

  /** Iterating a set: each element once, in an order the set does not fix. */
  method Enumerate(ids: set<string>) returns (order: seq<string>)
    ensures Enumerates(order, ids)
  {
    var remaining := ids;
    order := [];
    while remaining != {}
      invariant remaining <= ids
      invariant forall i, j :: 0 <= i < j < |order| ==> order[i] != order[j]
      invariant forall x :: x in order ==> x in ids && x !in remaining
      invariant forall x :: x in ids ==> x in order || x in remaining
      decreases |remaining|
    {
      var x :| x in remaining;
      order := order + [x];
      remaining := remaining - {x};
    }
  }

  /**
   * `extract_arxiv_ids_from_url(weburl)`: the distinct identifiers captured
   * on the page after an arXiv link, joined with `", "` in the set's
   * iteration order; `""` for a page without any or a status other than
   * 200; None where the request raises.
   */
  method ExtractIdsFromUrl(page: PageFetch) returns (r: Option<string>, ghost order: seq<string>)
    ensures r.None? <==> page.PageRaised?
    ensures page.PageNotOk? ==> r == Some([])
    ensures page.PageOk? ==> Enumerates(order, ScriptPageIds(page.text)) && r == Some(JoinWith(order, ", "))
  {
    match page {
      case PageRaised =>
        return None, [];
      case PageNotOk =>
        return Some([]), [];
      case PageOk(text) =>
        var ids := ScriptPageIds(text);
        if ids == {} {
          return Some([]), [];
        }
        var picked := Enumerate(ids);
        return Some(JoinWith(picked, ", ")), picked;
    }
  }

  /**
   * The routing of `main`: an argument containing `arxiv.org` is replaced by
   * its last '/'-segment; another one starting with `http` by the page's
   * identifiers (ending the program when there are none, or raising with
   * the page request); anything else is kept.
   */
  ghost predicate Routes(arg: string, page: PageFetch, r: Routed, order: seq<string>) {
    if Contains(arg, "arxiv.org") then r == Proceed(LastSegment(arg))
    else if !StartsWith(arg, "http") then r == Proceed(arg)
    else match page
      case PageRaised => r == Crash
      case PageNotOk => r == Stop
      case PageOk(text) =>
        && Enumerates(order, ScriptPageIds(text))
        && r == (if order == [] then Stop else Proceed(JoinWith(order, ", ")))
  }

  /** The routing statement of `main`, with `order` the page identifiers' iteration order. */
  method Route(arg: string, page: PageFetch) returns (r: Routed, ghost order: seq<string>)
    ensures Routes(arg, page, r, order)
  {
    order := [];
    if Contains(arg, "arxiv.org") {
      r := Proceed(LastSegment(arg));
    } else if StartsWith(arg, "http") {
      var found;
      found, order := ExtractIdsFromUrl(page);
      if found.None? {
        r := Crash;
      } else if found.value == [] {
        if page.PageOk? && order != [] {
          ScriptPageIdsSpec(page.text, order[0]);
          IdChars(order[0], NoVersion);
          JoinWithStart(order, ", ");
        }
        r := Stop;
      } else {
        r := Proceed(found.value);
      }
    } else {
      r := Proceed(arg);
    }
  }

  /**
   * Every identifier found on a page is downloaded exactly once: the
   * tokens of the joined page identifiers are those identifiers, in the
   * set's iteration order, without repetition.
   */
  lemma PageTokens(arg: string, page: PageFetch, r: Routed, order: seq<string>)
    requires Routes(arg, page, r, order)
    requires !Contains(arg, "arxiv.org") && StartsWith(arg, "http") && r.Proceed?
    ensures page.PageOk? && Tokens(r.arg) == order
    ensures forall i, j :: 0 <= i < j < |order| ==> order[i] != order[j]
    ensures forall k :: 0 <= k < |order| ==> order[k] in ScriptPageIds(page.text) && IsId(order[k], NoVersion)
    ensures |order| == |ScriptPageIds(page.text)|
  {
    var ids := ScriptPageIds(page.text);
    forall k | 0 <= k < |order|
      ensures IsId(order[k], NoVersion)
    {
      ScriptPageIdsSpec(page.text, order[k]);
    }
    TokensOfIdList(order, NoVersion);
    EnumeratesSize(order, ids);
  }

  /** An abstract link `https://arxiv.org/abs/<id>` is routed to the single token `<id>`. */
  lemma LinkTokens(id: string, page: PageFetch, r: Routed, order: seq<string>)
    requires IsId(id, Version(false))
    requires Routes(AbsLink(id), page, r, order)
    ensures r == Proceed(id) && Tokens(id) == [id]
  {
    LinkMentionsArxiv(id);
    IdChars(id, Version(false));
    LastSegmentAfterSlash("https://arxiv.org/abs/", id);
    assert JoinWith([id], ", ") == id;
    TokensOfIdList([id], Version(false));
  }

  /** An abstract link contains `arxiv.org`. */
  lemma LinkMentionsArxiv(id: string)
    ensures Contains(AbsLink(id), "arxiv.org")
  {
    var s := AbsLink(id);
    assert s[8..17] == "arxiv.org";
    assert OccursAt(s, "arxiv.org", 8);
  }

  /**
   * `main()`: route the argument, split it into tokens, and download each
   * token in turn with the configured folder and file name pattern;
   * `order` is the page identifiers' iteration order.
   */
  method RunScript(arg: string, folder: Option<string>, home: string, pattern: string, page: PageFetch, titles: TitleApi)
    returns (routed: Routed, ghost order: seq<string>, tokens: seq<string>, outcomes: seq<Outcome>)
    ensures Routes(arg, page, routed, order)
    ensures routed.Proceed? ==> tokens == Tokens(routed.arg) && DownloadRun(tokens, outcomes, folder, home, pattern, titles)
    ensures !routed.Proceed? ==> tokens == [] && outcomes == []
    ensures !Contains(arg, "arxiv.org") && StartsWith(arg, "http") && routed.Proceed? ==> tokens == order
  {
    routed, order := Route(arg, page);
    if !routed.Proceed? {
      return routed, order, [], [];
    }
    tokens := Tokens(routed.arg);
    if !Contains(arg, "arxiv.org") && StartsWith(arg, "http") {
      PageTokens(arg, page, routed, order);
    }
    outcomes := DownloadTokens(tokens, folder, home, pattern, titles);
  }
}
