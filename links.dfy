/**
 * The two arXiv addresses every part of the program builds from an
 * identifier: the abstract page link handed to the download routine, and
 * the PDF address the routine fetches.
 */
module Links {
  import opened Text

  /** The abstract page link `main` hands to `downloadPdf`. */
  function AbsLink(id: string): string {
    "https://arxiv.org/abs/" + id
  }

  /** The links `main` builds for a list of identifiers, one per identifier, in order. */
  function AbsLinks(ids: seq<string>): (links: seq<string>)
    ensures |links| == |ids|
    ensures forall k :: 0 <= k < |ids| ==> links[k] == AbsLink(ids[k])
    decreases |ids|
  {
    if ids == [] then [] else AbsLinks(ids[..|ids| - 1]) + [AbsLink(ids[|ids| - 1])]
  }

  /** `downloadPdf` recovers each '/'-free identifier from the link built for it. */
  lemma AbsLinksRecover(ids: seq<string>)
    requires forall k :: 0 <= k < |ids| ==> '/' !in ids[k]
    ensures forall k :: 0 <= k < |ids| ==> LastSegment(AbsLinks(ids)[k]) == ids[k]
  {
    forall k | 0 <= k < |ids|
      ensures LastSegment(AbsLinks(ids)[k]) == ids[k]
    {
      LastSegmentAfterSlash("https://arxiv.org/abs/", ids[k]);
    }
  }

  /** Building links one identifier at a time. */
  lemma AbsLinksSnoc(ids: seq<string>, i: nat)
    requires i < |ids|
    ensures AbsLinks(ids[..i + 1]) == AbsLinks(ids[..i]) + [AbsLink(ids[i])]
  {
    assert ids[..i + 1][..i] == ids[..i];
  }

  /** The PDF address of an identifier. */
  function PdfUrl(id: string): string {
    "https://arxiv.org/pdf/" + id + ".pdf"
  }

  /**
   * The routine's `split('/')` on the link it was handed gives the last
   * '/'-separated segment of the token the link was built from: the token
   * itself when it holds no '/', the text after its last '/' otherwise.
   */
  lemma AbsLinkId(token: string)
    ensures LastSegment(AbsLink(token)) == LastSegment(token)
  {
    LastSegmentAppend("https://arxiv.org/abs/", token);
  }
}
