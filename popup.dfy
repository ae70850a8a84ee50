/**
 * The popup (chrome_ext/popup.js): which identifiers it offers for a given
 * input, and the download button, which runs the extension's `main` once
 * per selected identifier.
 */
module Popup {
  import opened Wrappers
  import opened Text
  import opened ArxivId
  import opened PageScan
  import opened Links
  import opened Extension

  /**
   * `processInput(input)`: for input not starting with `http`, the
   * `[, ]+`-separated tokens that are whole identifiers, if there are any;
   * otherwise whatever `extractArxivIds` finds.
   */
  function ProcessInput(input: string, tab: Option<string>): seq<string> {
    var candidates := KeepIds(Split(input, CommaOrSpace));
    if !StartsWith(input, "http") && candidates != [] then candidates
    else ExtractArxivIds(input, tab)
  }

  /** Every identifier the popup offers matches the identifier pattern, with a `v` or `V` version mark. */
  lemma ProcessInputIds(input: string, tab: Option<string>)
    ensures forall k :: 0 <= k < |ProcessInput(input, tab)| ==> IsId(ProcessInput(input, tab)[k], Version(true))
  {
    var ids := ProcessInput(input, tab);
    var candidates := KeepIds(Split(input, CommaOrSpace));
    if !StartsWith(input, "http") && candidates != [] {
      forall k | 0 <= k < |ids|
        ensures IsId(ids[k], Version(true))
      {
        FullMatchIsId(ids[k], Version(false));
        IdCaseless(ids[k]);
      }
    } else if FirstId(input).Some? {
      FirstIdIsId(input);
      IdCaseless(FirstId(input).value);
    } else if tab.Some? {
      ExtensionPageIdsSpec(tab.value);
    }
  }

  /** A comma-and-space list of whole identifiers is offered as it stands, without consulting the page. */
  lemma ProcessInputList(ids: seq<string>, tab: Option<string>)
    requires |ids| >= 1 && forall k :: 0 <= k < |ids| ==> IsArxivId(ids[k])
    ensures ProcessInput(JoinWith(ids, ", "), tab) == ids
  {
    JoinedIds(ids);
    KeepIdsAll(ids);
  }

  /**
   * What `main` does with one selected identifier: a whole identifier is
   * routed to itself, while a page identifier with an upper-case `V`
   * version mark (which the page scanner accepts) is routed to nothing, so
   * selecting it downloads nothing.
   */
  lemma SelectedIdRouting(x: string, tab: Option<string>)
    requires IsId(x, Version(true))
    ensures IsArxivId(x) ==> RouteIds(x, tab) == [x]
    ensures 'V' in x ==> RouteIds(x, tab) == []
  {
    if IsArxivId(x) {
      assert JoinWith([x], ", ") == x;
      RouteIdList([x], tab);
    }
    if 'V' in x {
      UpperVersionRouting(x, tab);
    }
  }

  /** An identifier with an upper-case `V` is a single token that is not a whole identifier, so it is routed to nothing. */
  lemma UpperVersionRouting(x: string, tab: Option<string>)
    requires IsId(x, Version(true)) && 'V' in x
    ensures RouteIds(x, tab) == []
  {
    CaselessIdToken(x);
    AbsentFirstChar(x, "arxiv.org");
    AbsentFirstChar(x, "http");
    JoinedTokensSplit([x]);
    assert JoinWith([x], ", ") == x;
    WholeIdNoUpper(x);
    assert KeepIds([x]) == KeepIds([]);
  }

  /** A page identifier is a non-empty token free of separators, `a` and `h`. */
  lemma CaselessIdToken(x: string)
    requires IsId(x, Version(true))
    ensures x != [] && NoneIn(x, CommaOrSpace) && 'a' !in x && 'h' !in x
  {
    IdChars(x, Version(true));
  }

  /** A whole identifier has no upper-case `V`. */
  lemma WholeIdNoUpper(x: string)
    ensures IsArxivId(x) ==> 'V' !in x
  {
    if IsArxivId(x) {
      FullMatchIsId(x, Version(false));
      IdChars(x, Version(false));
    }
  }

  /** The requests `main(id, null, pattern)` issues for each selected identifier, one after the other. */
  function SelectedDownloads(selected: seq<string>, pattern: string, tab: Option<string>, titles: TitleOracle): seq<Download>
    decreases |selected|
  {
    if selected == [] then []
    else
      var n := |selected| - 1;
      SelectedDownloads(selected[..n], pattern, tab, titles) +
      DownloadsFor(AbsLinks(RouteIds(selected[n], tab)), EffectivePattern(Some(pattern)), titles)
  }

  /** The requests for the first `i + 1` selected identifiers: those for the first `i`, then those for the next one. */
  lemma SelectedDownloadsStep(selected: seq<string>, i: nat, pattern: string, tab: Option<string>, titles: TitleOracle)
    requires i < |selected|
    ensures selected[..i + 1] == selected[..i] + [selected[i]]
    ensures SelectedDownloads(selected[..i + 1], pattern, tab, titles) ==
            SelectedDownloads(selected[..i], pattern, tab, titles) +
            DownloadsFor(AbsLinks(RouteIds(selected[i], tab)), EffectivePattern(Some(pattern)), titles)
  {
    assert selected[..i + 1][..i] == selected[..i];
  }

  /**
   * Selected whole identifiers are each downloaded once, in selection
   * order, exactly as `main` would download the whole list.
   */
  lemma {:induction false} SelectedWholeIds(selected: seq<string>, pattern: string, tab: Option<string>, titles: TitleOracle)
    requires forall k :: 0 <= k < |selected| ==> IsArxivId(selected[k])
    ensures SelectedDownloads(selected, pattern, tab, titles) ==
            DownloadsFor(AbsLinks(selected), EffectivePattern(Some(pattern)), titles)
    decreases |selected|
  {
    if selected != [] {
      var n := |selected| - 1;
      var x, init := selected[n], selected[..n];
      var p := EffectivePattern(Some(pattern));
      SelectedWholeIds(init, pattern, tab, titles);
      FullMatchIsId(x, Version(false));
      IdCaseless(x);
      SelectedIdRouting(x, tab);
      var l := AbsLink(x);
      assert AbsLinks([x]) == [l] by {
        assert [x][..0] == [];
      }
      var last := if DownloadPdf(l, p, titles).Some? then [DownloadPdf(l, p, titles).value] else [];
      assert DownloadsFor([l], p, titles) == last by {
        assert [l][..0] == [];
      }
      assert AbsLinks(selected) == AbsLinks(init) + [l];
      assert (AbsLinks(init) + [l])[..|AbsLinks(init)|] == AbsLinks(init);
      assert DownloadsFor(AbsLinks(selected), p, titles) == DownloadsFor(AbsLinks(init), p, titles) + last;
    }
  }

  /**
   * The download button: with a selection, `main(id, null, pattern)` once
   * per selected identifier, in selection order, each awaited before the
   * next; `calls` are the identifiers `main` was called with.
   */
  method DownloadSelected(selected: seq<string>, pattern: string, tab: Option<string>, titles: TitleOracle)
    returns (calls: seq<string>, downloads: seq<Download>)
    ensures calls == selected
    ensures downloads == SelectedDownloads(selected, pattern, tab, titles)
  {
    calls, downloads := [], [];
    if |selected| > 0 {
      for i := 0 to |selected|
        invariant calls == selected[..i]
        invariant downloads == SelectedDownloads(selected[..i], pattern, tab, titles)
      {
        var id := selected[i];
        var _, ds := RunMain(id, Some(pattern), tab, titles);
        SelectedDownloadsStep(selected, i, pattern, tab, titles);
        calls := calls + [id];
        downloads := downloads + ds;
      }
    }
    assert selected[..|selected|] == selected;
  }
}
