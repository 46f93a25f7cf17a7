/**
 * The logic of the arXiv fetch script: the query parameters sent to the API,
 * the extraction of one paper record per Atom entry (text normalisation, author
 * names, PDF link selection and its fallback), and the payload written out.
 */
module FetchArxiv {
  import opened Wrappers
  import opened Whitespace
  import opened Strings
  import opened Atom

  const ApiUrl: string := "https://export.arxiv.org/api/query"
  const DefaultSortBy: string := "lastUpdatedDate"
  const DefaultSortOrder: string := "descending"

  // ===========================================================================
  // Query parameters

  datatype ParamValue = Text(text: string) | Number(number: int)

  /** The keys of a parameter list, in order. */
  function Keys(ps: seq<(string, ParamValue)>): (ks: seq<string>)
    ensures |ks| == |ps|
    ensures forall i :: 0 <= i < |ps| ==> ks[i] == ps[i].0
  {
    if ps == [] then [] else [ps[0].0] + Keys(ps[1..])
  }

  /** The value of the first parameter named `key`. */
  function Lookup(ps: seq<(string, ParamValue)>, key: string): Option<ParamValue> {
    if ps == [] then None
    else if ps[0].0 == key then Some(ps[0].1)
    else Lookup(ps[1..], key)
  }

  predicate DistinctKeys(ps: seq<(string, ParamValue)>) {
    forall i, j :: 0 <= i < j < |ps| ==> ps[i].0 != ps[j].0
  }

  /** With distinct keys, looking a key up finds the value stored with it. */
  lemma {:induction false} LookupAt(ps: seq<(string, ParamValue)>, i: nat)
    requires DistinctKeys(ps) && i < |ps|
    ensures Lookup(ps, ps[i].0) == Some(ps[i].1)
  {
    if i > 0 {
      assert ps[0].0 != ps[i].0;
      LookupAt(ps[1..], i - 1);
    }
  }

  /** The parameters `build_api_url` passes to `urlencode`, in the dict's
      insertion order. The limit is passed through unchecked. */
  function ApiParams(query: string, maxResults: int): seq<(string, ParamValue)> {
    [ ("search_query", Text(query)),
      ("start", Number(0)),
      ("max_results", Number(maxResults)),
      ("sortBy", Text(DefaultSortBy)),
      ("sortOrder", Text(DefaultSortOrder)) ]
  }

  /** The query `build_api_url` sends: each of the five parameters exactly once,
      in this order; the query and the limit carried through, the offset 0, and
      the sort by last update, newest first. */
  predicate IsApiQuery(ps: seq<(string, ParamValue)>, query: string, maxResults: int) {
    && Keys(ps) == ["search_query", "start", "max_results", "sortBy", "sortOrder"]
    && DistinctKeys(ps)
    && Lookup(ps, "search_query") == Some(Text(query))
    && Lookup(ps, "start") == Some(Number(0))
    && Lookup(ps, "max_results") == Some(Number(maxResults))
    && Lookup(ps, "sortBy") == Some(Text("lastUpdatedDate"))
    && Lookup(ps, "sortOrder") == Some(Text("descending"))
  }

  /** The parameter list has the shape of the query the script sends. */
  lemma ApiParamsShape(query: string, maxResults: int)
    ensures IsApiQuery(ApiParams(query, maxResults), query, maxResults)
  {
    var ps := ApiParams(query, maxResults);
    LookupAt(ps, 0);
    LookupAt(ps, 1);
    LookupAt(ps, 2);
    LookupAt(ps, 3);
    LookupAt(ps, 4);
  }

  /** The shape admits exactly one parameter list: the one the script builds. */
  lemma ApiQueryDetermined(ps: seq<(string, ParamValue)>, query: string, maxResults: int)
    requires IsApiQuery(ps, query, maxResults)
    ensures ps == ApiParams(query, maxResults)
  {
    var expected := ApiParams(query, maxResults);
    assert |ps| == 5;
    forall i | 0 <= i < 5 ensures ps[i] == expected[i] {
      LookupAt(ps, i);
      assert ps[i].0 == expected[i].0;
    }
  }

  /** `build_api_url`: the endpoint, a `?`, and the encoding of the query's
      parameter list. The encoder (`urllib.parse.urlencode`) is a parameter of
      the model. */
  function BuildApiUrl(query: string, maxResults: int, urlencode: seq<(string, ParamValue)> -> string): (url: string)
    ensures exists ps :: IsApiQuery(ps, query, maxResults) && url == ApiUrl + "?" + urlencode(ps)
  {
    ApiParamsShape(query, maxResults);
    ApiUrl + "?" + urlencode(ApiParams(query, maxResults))
  }

  // ===========================================================================
  // Paper records

  datatype Paper = Paper(
    id: string,
    title: string,
    authors: seq<string>,
    summary: string,
    published: string,
    updated: string,
    pdfUrl: string)

  /** `text_or_empty`: the element's text with whitespace normalised, or "" when
      the element is missing or has no text. */
  function TextOrEmpty(node: Option<Element>): (r: string)
    ensures node.None? || node.value.text.None? ==> r == ""
    ensures node.Some? && node.value.text.Some? ==> Words(r) == Words(node.value.text.value)
    ensures r == "" <==> node.None? || node.value.text.None? || AllSpace(node.value.text.value)
    ensures IsNormal(r)
  {
    match node
    case None => ""
    case Some(e) =>
      match e.text
      case None => ""
      case Some(t) =>
        NormalizeIsNormal(t);
        NormalizeKeepsWords(t);
        NormalizeEmptyIff(t);
        Normalize(t)
  }

  /** `attrib.get(name) or ""`: an absent attribute reads as "". */
  function AttrOrEmpty(a: Option<string>): string {
    a.GetOr("")
  }

  /** A link the script takes for the PDF: its `title` is "pdf" or its `type` is
      "application/pdf", ignoring case. */
  predicate IsPdfLink(l: Link) {
    Lower(AttrOrEmpty(l.title)) == "pdf" || Lower(AttrOrEmpty(l.mediaType)) == "application/pdf"
  }

  /** The position of the first PDF link, if there is one. */
  function FirstPdfLink(links: seq<Link>): (r: Option<nat>)
    ensures r.Some? ==> r.value < |links| && IsPdfLink(links[r.value])
    ensures r.Some? ==> forall j :: 0 <= j < r.value ==> !IsPdfLink(links[j])
    ensures r.None? <==> forall j :: 0 <= j < |links| ==> !IsPdfLink(links[j])
  {
    if links == [] then None
    else if IsPdfLink(links[0]) then Some(0)
    else
      match FirstPdfLink(links[1..])
      case None => None
      case Some(k) => Some(k + 1)
  }

  /** The `href` of the first PDF link, or "" (also when that link has none). */
  function LinkedPdfUrl(links: seq<Link>): string {
    match FirstPdfLink(links)
    case None => ""
    case Some(i) => AttrOrEmpty(links[i].href)
  }

  /** The URL derived from an identifier: every "/abs/" becomes "/pdf/", then
      ".pdf" is appended. */
  function FallbackPdfUrl(id: string): (u: string)
    ensures |u| == |id| + 4 && u[|id|..] == ".pdf"
  {
    ReplaceKeepsLength(id, "/abs/", "/pdf/");
    Replace(id, "/abs/", "/pdf/") + ".pdf"
  }

  /** `pdf_url`: the first PDF link's `href` when it is non-empty; otherwise the
      fallback when the identifier is non-empty; otherwise "". */
  function PdfUrl(links: seq<Link>, id: string): string {
    var linked := LinkedPdfUrl(links);
    if linked == "" && id != "" then FallbackPdfUrl(id) else linked
  }

  /** `text_or_empty(author, "atom:name")`. */
  function AuthorName(a: Author): string {
    TextOrEmpty(a.name)
  }

  /** The author names of an entry, one per `atom:author`. */
  function AuthorNames(authors: seq<Author>): seq<string> {
    Map(AuthorName, authors)
  }

  /** The record `parse_entries` builds for one entry. */
  function PaperOf(e: Entry): Paper {
    var id := TextOrEmpty(e.id);
    Paper(
      id,
      TextOrEmpty(e.title),
      AuthorNames(e.authors),
      TextOrEmpty(e.summary),
      TextOrEmpty(e.published),
      TextOrEmpty(e.updated),
      PdfUrl(e.links, id))
  }

  /** `f` applied to each element, in order. */
  function Map<A, B>(f: A -> B, xs: seq<A>): (ys: seq<B>)
    ensures |ys| == |xs|
    ensures forall i :: 0 <= i < |xs| ==> ys[i] == f(xs[i])
  {
    if xs == [] then [] else [f(xs[0])] + Map(f, xs[1..])
  }

  /** Mapping distributes over concatenation. */
  lemma {:induction false} MapConcat<A, B>(f: A -> B, a: seq<A>, b: seq<A>)
    ensures Map(f, a + b) == Map(f, a) + Map(f, b)
  {
    if a != [] {
      assert (a + b)[1..] == a[1..] + b;
      MapConcat(f, a[1..], b);
    } else {
      assert a + b == b;
    }
  }

  /** The records of a whole feed. */
  function Papers(feed: Feed): seq<Paper> {
    Map(PaperOf, feed.entries)
  }

  /** The inner author loop of `parse_entries`: one name per `atom:author`,
      appended in document order. */
  method CollectAuthors(authors: seq<Author>) returns (names: seq<string>)
    ensures names == AuthorNames(authors)
  {
    names := [];
    for k := 0 to |authors|
      invariant |names| == k
      invariant forall j :: 0 <= j < k ==> names[j] == TextOrEmpty(authors[j].name)
    {
      names := names + [TextOrEmpty(authors[k].name)];
    }
  }

  /** The link loop of `parse_entries`: scan in order, and at the first PDF link
      take its `href` and stop. */
  method ScanLinks(links: seq<Link>) returns (pdfUrl: string)
    ensures pdfUrl == LinkedPdfUrl(links)
  {
    pdfUrl := "";
    for k := 0 to |links|
      invariant pdfUrl == ""
      invariant forall j :: 0 <= j < k ==> !IsPdfLink(links[j])
    {
      var link := links[k];
      var titleAttr := Lower(AttrOrEmpty(link.title));
      var linkType := Lower(AttrOrEmpty(link.mediaType));
      var href := AttrOrEmpty(link.href);
      if titleAttr == "pdf" || linkType == "application/pdf" {
        pdfUrl := href;
        FirstPdfLinkAt(links, k);
        return;
      }
    }
  }

  /** `parse_entries` on an already parsed feed: one record per entry, in
      document order, each with its authors collected and its links scanned
      for the PDF, falling back on the identifier. */
  method ParseEntries(feed: Feed) returns (papers: seq<Paper>)
    ensures |papers| == |feed.entries|
    ensures forall i :: 0 <= i < |papers| ==> papers[i] == PaperOf(feed.entries[i])
  {
    papers := [];
    for n := 0 to |feed.entries|
      invariant |papers| == n
      invariant forall i :: 0 <= i < n ==> papers[i] == PaperOf(feed.entries[i])
    {
      var paper := ParseEntry(feed.entries[n]);
      papers := papers + [paper];
    }
  }

  /** The body of the entry loop of `parse_entries`: the text fields, the
      authors, the identifier and the PDF URL of one entry. */
  method ParseEntry(entry: Entry) returns (paper: Paper)
    ensures paper == PaperOf(entry)
  {
    var title := TextOrEmpty(entry.title);
    var summary := TextOrEmpty(entry.summary);
    var published := TextOrEmpty(entry.published);
    var updated := TextOrEmpty(entry.updated);
    var authors := CollectAuthors(entry.authors);
    var paperId := TextOrEmpty(entry.id);
    var pdfUrl := ScanLinks(entry.links);
    if pdfUrl == "" && paperId != "" {
      pdfUrl := Replace(paperId, "/abs/", "/pdf/") + ".pdf";
    }
    paper := Paper(paperId, title, authors, summary, published, updated, pdfUrl);
  }

  // ===========================================================================
  // Properties of the records

  /** The first PDF link is found by position alone. */
  lemma FirstPdfLinkAt(links: seq<Link>, i: nat)
    requires i < |links| && IsPdfLink(links[i])
    requires forall j :: 0 <= j < i ==> !IsPdfLink(links[j])
    ensures FirstPdfLink(links) == Some(i)
  {
  }

  /** With a PDF link at position `i` and none before it, the URL is that link's
      `href` when non-empty, and otherwise the fallback (or "" for an empty id). */
  lemma PdfUrlFirstMatch(links: seq<Link>, id: string, i: nat)
    requires i < |links| && IsPdfLink(links[i])
    requires forall j :: 0 <= j < i ==> !IsPdfLink(links[j])
    ensures AttrOrEmpty(links[i].href) != "" ==> PdfUrl(links, id) == AttrOrEmpty(links[i].href)
    ensures AttrOrEmpty(links[i].href) == "" && id != "" ==> PdfUrl(links, id) == Replace(id, "/abs/", "/pdf/") + ".pdf"
    ensures AttrOrEmpty(links[i].href) == "" && id == "" ==> PdfUrl(links, id) == ""
  {
    FirstPdfLinkAt(links, i);
  }

  /** With no PDF link at all, the URL is the fallback, or "" for an empty id. */
  lemma PdfUrlNoMatch(links: seq<Link>, id: string)
    requires forall j :: 0 <= j < |links| ==> !IsPdfLink(links[j])
    ensures id != "" ==> PdfUrl(links, id) == Replace(id, "/abs/", "/pdf/") + ".pdf"
    ensures id == "" ==> PdfUrl(links, id) == ""
  {
  }

  /** Links after the first PDF link are never considered. */
  lemma PdfUrlIgnoresLaterLinks(links: seq<Link>, later: seq<Link>, id: string)
    requires FirstPdfLink(links).Some?
    ensures PdfUrl(links + later, id) == PdfUrl(links, id)
  {
    var i := FirstPdfLink(links).value;
    assert forall j :: 0 <= j <= i ==> (links + later)[j] == links[j];
    FirstPdfLinkAt(links + later, i);
  }

  /** The URL is empty exactly when the identifier is empty and no usable PDF
      link was found. */
  lemma PdfUrlEmptyIff(links: seq<Link>, id: string)
    ensures PdfUrl(links, id) == "" <==> id == "" && LinkedPdfUrl(links) == ""
  {
  }

  /** For an arXiv-style identifier `<base>/abs/<key>` the fallback is
      `<base>/pdf/<key>.pdf`, provided "/abs/" occurs only there. */
  lemma FallbackOfAbsId(base: string, key: string)
    requires forall j :: 0 <= j < |base| ==> !OccursAt(base + "/abs/", "/abs/", j)
    requires forall j :: 0 <= j <= |key| ==> !OccursAt(key, "/abs/", j)
    ensures FallbackPdfUrl(base + "/abs/" + key) == base + "/pdf/" + key + ".pdf"
  {
    ReplaceSingle(base, "/abs/", key, "/pdf/");
  }

  /** Every text field of a record is normalised text, and "" when its element is
      missing or has no text; there is one author name per `atom:author`, in
      order, and a nameless author gives "". */
  lemma PaperOfFields(e: Entry)
    ensures var p := PaperOf(e);
      && IsNormal(p.id) && IsNormal(p.title) && IsNormal(p.summary)
      && IsNormal(p.published) && IsNormal(p.updated)
      && (e.title.None? ==> p.title == "") && (e.id.None? ==> p.id == "")
      && (e.summary.None? ==> p.summary == "")
      && (e.published.None? ==> p.published == "") && (e.updated.None? ==> p.updated == "")
      && |p.authors| == |e.authors|
      && (forall i :: 0 <= i < |e.authors| ==> IsNormal(p.authors[i]))
      && (forall i :: 0 <= i < |e.authors| && e.authors[i].name.None? ==> p.authors[i] == "")
      && (forall i :: 0 <= i < |e.authors| && e.authors[i].name.Some? && e.authors[i].name.value.text.Some? ==>
            Words(p.authors[i]) == Words(e.authors[i].name.value.text.value))
  {
  }

  /** `parse_entries` keeps document order: the records of two concatenated runs
      of entries are the records of each run, concatenated. */
  lemma PapersOfConcat(a: seq<Entry>, b: seq<Entry>)
    ensures Papers(Feed(a + b)) == Papers(Feed(a)) + Papers(Feed(b))
  {
    MapConcat(PaperOf, a, b);
  }

  // ===========================================================================
  // Worked examples

  /** A one-entry feed: a title with two words amid whitespace, no authors, no
      links, and an arXiv identifier `<base>/abs/<key>`. The title collapses to
      the two words and the PDF URL is derived from the identifier. */
  lemma OneEntryScenario(lead: string, w1: string, gap: string, w2: string, trail: string, base: string, key: string)
    requires AllSpace(lead) && AllSpace(gap) && AllSpace(trail) && gap != []
    requires IsWord(w1) && IsWord(w2)
    requires IsWord(base) && IsWord(key)
    requires forall j :: 0 <= j < |base| ==> !OccursAt(base + "/abs/", "/abs/", j)
    requires forall j :: 0 <= j <= |key| ==> !OccursAt(key, "/abs/", j)
    ensures var e := Entry(Some(Element(Some(lead + w1 + gap + w2 + trail))), None, None, None,
                           Some(Element(Some(base + "/abs/" + key))), [], []);
      && PaperOf(e).title == w1 + " " + w2
      && PaperOf(e).authors == []
      && PaperOf(e).pdfUrl == base + "/pdf/" + key + ".pdf"
  {
    NormalizeTwoWords(lead, w1, gap, w2, trail);
    var id := base + "/abs/" + key;
    assert IsWord(id) by {
      assert forall j :: 0 <= j < |id| ==> id[j] == (if j < |base| then base[j] else if j < |base| + 5 then "/abs/"[j - |base|] else key[j - |base| - 5]);
    }
    assert Normalize(id) == id by {
      NormalIsFixed(id);
    }
    FallbackOfAbsId(base, key);
  }

  // ===========================================================================
  // Output payload

  datatype Payload = Payload(
    generatedAtUtc: string,
    query: string,
    maxResults: int,
    count: int,
    papers: seq<Paper>)

  /** The payload's count agrees with its list of papers. */
  predicate CountMatches(p: Payload) {
    p.count == |p.papers|
  }

  /** The payload `write_output` serialises. The timestamp, taken from the clock
      by the script, is a parameter here. */
  function BuildPayload(papers: seq<Paper>, query: string, maxResults: int, generatedAtUtc: string): (p: Payload)
    ensures CountMatches(p)
    ensures p.papers == papers && p.query == query && p.maxResults == maxResults
    ensures p.generatedAtUtc == generatedAtUtc
  {
    Payload(generatedAtUtc, query, maxResults, |papers|, papers)
  }

  /** For a fetched feed, the payload's count is the number of entries. */
  lemma PayloadCountsEntries(feed: Feed, query: string, maxResults: int, generatedAtUtc: string)
    ensures BuildPayload(Papers(feed), query, maxResults, generatedAtUtc).count == |feed.entries|
  {
  }
}
