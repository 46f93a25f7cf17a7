# arXiv feed extraction, modelled in Dafny

This project models the logic of `scripts/fetch_arxiv.py`, a script that asks
the arXiv search API for recent papers, turns the Atom feed it gets back into
one paper record per entry, and writes the records out as a JSON payload. The
network call, the XML parser, JSON serialisation and the file write are left
out. What remains is modelled and proved:

- the whitespace normalisation of `text_or_empty` (`" ".join(text.split())`);
- `parse_entries` on an already parsed feed: one record per `atom:entry`, the
  author names, the selection of the PDF link (the first match, then stop) and
  the fallback URL derived from the identifier;
- the ordered parameter list of `build_api_url`, and the payload built by
  `write_output`.

Files:

- `wrappers.dfy` (`Wrappers`): an `Option` type for absent elements and
  attributes.
- `strings.dfy` (`Strings`): `str.lower()` on ASCII letters; `sep.join(parts)`
  as `JoinWith`; and `str.replace` as a left-to-right scan that replaces each
  occurrence and resumes after it. The scan is proved equal to an independent
  reference, `rep.join(s.split(pat))`, built on `str.find`.
- `whitespace.dfy` (`Whitespace`): Python's `str.split()` with no separator as
  `Words`. `Normalize` is its composition with `JoinWith(_, " ")`. `IsNormal`
  is the shape of normalised text. The whitespace set is the full set of
  characters for which Python's `str.isspace()` holds.
- `atom.dfy` (`Atom`): the parsed feed as datatypes. It holds only the parts
  the script looks up: entries, their text children, authors and links, as
  described in RFC 4287 (section 4.1.2 for `atom:entry`, 4.2.1 for
  `atom:author`, 4.2.7 for `atom:link`). Each optional element stands for what
  a namespace-qualified `find` returns: the first child of that name, or
  nothing.
- `fetch_arxiv.dfy` (`FetchArxiv`): the script's own logic.

`parse_entries` builds its list by appending in a loop. The model keeps that
shape: `ParseEntries` is a method with a loop, and `ParseEntry` is the body of
that loop, both proved against the function `PaperOf`. The author loop and the
link loop of the body are the methods `CollectAuthors` and `ScanLinks`, which
`ParseEntry` calls. Each is proved against its specification function
(`AuthorNames`, `LinkedPdfUrl`). `ScanLinks` stops at the first PDF link, as
the `break` does.

Two consequences of the link loop are worth stating plainly:

- The first link that matches either test wins. The tests are a `title` of
  "pdf" and a `type` of "application/pdf", both ignoring case. An earlier link
  titled "pdf" therefore beats a later link typed `application/pdf`
  (`PdfUrlIgnoresLaterLinks`, `PdfUrlFirstMatch`).
- If that first match has an empty or missing `href`, the URL derived from the
  identifier is used when the identifier is non-empty, and "" otherwise; later
  links are never read (`PdfUrlFirstMatch`).

## Model

| member | source | states |
|---|---|---|
| `Whitespace.Normalize` | scripts/fetch_arxiv.py:39 | `" ".join(text.split())`; its meaning is stated by `NormalizeIsNormal`, `NormalizeKeepsWords`, `NormalizeFixedPoints` and `NormalizeEmptyIff` below |
| `Whitespace.Words` | scripts/fetch_arxiv.py:39 | every piece `str.split()` yields is non-empty and free of whitespace |
| `Whitespace.WordsOfJoin` | scripts/fetch_arxiv.py:39 | round trip: splitting words that were joined by single spaces gives back exactly those words |
| `Whitespace.JoinIsNormal` | scripts/fetch_arxiv.py:39 | words joined by single spaces never start or end with a space, contain no other whitespace and never two spaces in a row |
| `Whitespace.NormalizeIsNormal` | scripts/fetch_arxiv.py:39 | normalised text has no leading or trailing whitespace, no whitespace but the plain space, and no two consecutive spaces |
| `Whitespace.NormalizeKeepsWords` | scripts/fetch_arxiv.py:39 | normalisation keeps the words of the text and their order |
| `Whitespace.NormalizeIdempotent` | scripts/fetch_arxiv.py:39 | normalising already normalised text returns it unchanged |
| `Whitespace.NormalizeFixedPoints` | scripts/fetch_arxiv.py:39 | normalisation leaves a string unchanged if and only if it already has the normalised shape |
| `Whitespace.NormalizeEmptyIff` | scripts/fetch_arxiv.py:39 | normalisation gives "" exactly when the text is all whitespace |
| `Whitespace.NormalizeTwoWords` | scripts/fetch_arxiv.py:39 | two words amid runs of whitespace of any length normalise to the two words joined by one space |
| `Strings.Lower` | scripts/fetch_arxiv.py:59-60 | lower-casing keeps the length and maps each character to its lower-case form (ASCII letters) |
| `Strings.LowerEqualsIff` | scripts/fetch_arxiv.py:59-62 | `x.lower() == t` for lower-case `t` holds if and only if `x` equals `t` up to the case of its letters |
| `Strings.Find` | scripts/fetch_arxiv.py:67 | the result is the first index where the pattern occurs, and `None` exactly when it occurs nowhere; the script never calls `str.find`, this is part of the reference definition of `replace` |
| `Strings.Replace` | scripts/fetch_arxiv.py:67 | `str.replace` as a left-to-right, non-overlapping scan; its meaning is stated by `ReplaceIsSplitJoin` and the other `Replace…` lemmas below |
| `Strings.ReplaceCopiesPrefix` | scripts/fetch_arxiv.py:67 | `replace` copies unchanged any prefix in which no occurrence of the pattern starts |
| `Strings.ReplaceNoOccurrence` | scripts/fetch_arxiv.py:67 | text without an occurrence of the pattern is returned unchanged |
| `Strings.ReplaceKeepsLength` | scripts/fetch_arxiv.py:67 | replacing "/abs/" by "/pdf/" (same length) keeps the length of the identifier |
| `Strings.ReplaceSingle` | scripts/fetch_arxiv.py:67 | text with exactly one occurrence of the pattern has that occurrence replaced and nothing else |
| `Strings.ReplaceAtFirst` | scripts/fetch_arxiv.py:67 | at the first occurrence of the pattern, `replace` copies the text before it, writes the replacement and carries on after the occurrence |
| `Strings.SplitOnJoinWith` | scripts/fetch_arxiv.py:67 | round trip of the reference: `sep.join(s.split(sep)) == s` |
| `Strings.ReplaceIsSplitJoin` | scripts/fetch_arxiv.py:67 | the left-to-right, non-overlapping scan equals `rep.join(s.split(pat))`, Python's meaning of `str.replace` |
| `FetchArxiv.LookupAt` | scripts/fetch_arxiv.py:25-31 | in a parameter list with distinct keys, looking a key up yields the value stored with it |
| `FetchArxiv.ApiParams` | scripts/fetch_arxiv.py:25-31 | the `params` dict in insertion order; its shape is stated by `ApiParamsShape` |
| `FetchArxiv.ApiParamsShape` | scripts/fetch_arxiv.py:25-31 | the list satisfies `IsApiQuery`: the parameters are `search_query`, `start`, `max_results`, `sortBy`, `sortOrder` in that order, each exactly once; query and limit are carried through, `start` is 0, the sort is "lastUpdatedDate" / "descending" |
| `FetchArxiv.ApiQueryDetermined` | scripts/fetch_arxiv.py:25-31 | any list with that shape is exactly the script's list: the shape pins down every key and value and their order |
| `FetchArxiv.BuildApiUrl` | scripts/fetch_arxiv.py:24-32 | the URL is the API endpoint, then `?`, then the encoding of a parameter list with each of the five parameters exactly once, in order, carrying the query and the limit, `start` 0 and the fixed sort |
| `FetchArxiv.TextOrEmpty` | scripts/fetch_arxiv.py:35-39 | a missing element or one without text gives ""; otherwise the result is normalised text with the same words as the element's text; "" exactly when there is no text or it is all whitespace |
| `FetchArxiv.AttrOrEmpty` | scripts/fetch_arxiv.py:59-61 | an absent attribute reads as ""; used through `IsPdfLink` and `LinkedPdfUrl`, whose properties are stated by the `PdfUrl…` lemmas below |
| `FetchArxiv.IsPdfLink` | scripts/fetch_arxiv.py:59-62 | the link test: `title` lower-cased equals "pdf" or `type` lower-cased equals "application/pdf"; `LowerEqualsIff` states what the lower-cased comparison accepts |
| `FetchArxiv.FirstPdfLink` | scripts/fetch_arxiv.py:58-64 | the result is the index of a PDF link with no PDF link before it, and `None` if and only if no link is a PDF link |
| `FetchArxiv.LinkedPdfUrl` | scripts/fetch_arxiv.py:57-64 | the `href` of the first PDF link, or ""; `ScanLinks` is proved equal to it, `FirstPdfLinkAt` and `PdfUrlIgnoresLaterLinks` state its first-match behaviour |
| `FetchArxiv.PdfUrl` | scripts/fetch_arxiv.py:57-67 | the `pdf_url` of a record; stated by `PdfUrlFirstMatch`, `PdfUrlNoMatch` and `PdfUrlEmptyIff` |
| `FetchArxiv.AuthorNames` | scripts/fetch_arxiv.py:52-54 | one normalised name per `atom:author`; `CollectAuthors` is proved equal to it and `PaperOfFields` states its properties |
| `FetchArxiv.PaperOf` | scripts/fetch_arxiv.py:47-79 | the record built for one entry; stated field by field by `PaperOfFields`, and `ParseEntry` is proved to build it |
| `FetchArxiv.Papers` | scripts/fetch_arxiv.py:46-81 | the records of a feed, one per entry in order; stated by `PapersOfConcat` and `PayloadCountsEntries` |
| `FetchArxiv.FallbackPdfUrl` | scripts/fetch_arxiv.py:66-67 | the derived URL is the identifier's length plus four and ends in ".pdf" |
| `FetchArxiv.CollectAuthors` | scripts/fetch_arxiv.py:52-54 | the loop yields one name per `atom:author`, in document order |
| `FetchArxiv.ScanLinks` | scripts/fetch_arxiv.py:57-64 | the loop stops at the first PDF link and yields its `href` (or ""), and yields "" when no link matches |
| `FetchArxiv.ParseEntry` | scripts/fetch_arxiv.py:47-79 | the record built for one entry is exactly `PaperOf` of that entry: normalised text fields, the collected author names, and the PDF URL with its fallback |
| `FetchArxiv.ParseEntries` | scripts/fetch_arxiv.py:42-81 | exactly one record per entry, in document order (none for an empty feed), each the record specified for that entry |
| `FetchArxiv.FirstPdfLinkAt` | scripts/fetch_arxiv.py:58-64 | a PDF link with none before it is the one selected |
| `FetchArxiv.PdfUrlFirstMatch` | scripts/fetch_arxiv.py:57-67 | with the first PDF link at position i: its non-empty `href` is the URL; if that `href` is empty, the fallback from a non-empty identifier is used, and otherwise "" |
| `FetchArxiv.PdfUrlNoMatch` | scripts/fetch_arxiv.py:57-67 | with no PDF link, the URL is `replace(id, "/abs/", "/pdf/") + ".pdf"` for a non-empty identifier and "" for an empty one |
| `FetchArxiv.PdfUrlIgnoresLaterLinks` | scripts/fetch_arxiv.py:58-64 | links after the first PDF link never change the URL |
| `FetchArxiv.PdfUrlEmptyIff` | scripts/fetch_arxiv.py:57-67 | the URL is "" if and only if the identifier is empty and no non-empty `href` was selected |
| `FetchArxiv.FallbackOfAbsId` | scripts/fetch_arxiv.py:66-67 | for an identifier `<base>/abs/<key>` with "/abs/" only there (the key may contain `/`, as old-style identifiers such as `hep-th/9901001v1` do), the fallback is `<base>/pdf/<key>.pdf` |
| `FetchArxiv.PaperOfFields` | scripts/fetch_arxiv.py:47-56 | every text field of a record is normalised and "" for a missing element; one author name per `atom:author`, in order; a nameless author gives "" |
| `FetchArxiv.MapConcat` | scripts/fetch_arxiv.py:46-81 | building records entry by entry distributes over concatenation of the entries |
| `FetchArxiv.PapersOfConcat` | scripts/fetch_arxiv.py:46-81 | records follow document order: the records of two runs of entries are the records of each run, concatenated |
| `FetchArxiv.OneEntryScenario` | scripts/fetch_arxiv.py:47-67 | an entry titled with two words amid whitespace and identified by `<base>/abs/<key>`, with no links, gives the title "w1 w2" and the PDF URL `<base>/pdf/<key>.pdf` |
| `FetchArxiv.BuildPayload` | scripts/fetch_arxiv.py:92-98 | the payload's count equals the number of papers it carries; papers, query, limit and timestamp are carried through unchanged |
| `FetchArxiv.PayloadCountsEntries` | scripts/fetch_arxiv.py:92-98 | for a parsed feed, the payload's count is the number of entries in the feed |

## Left out

- The HTTP request with its 30-second timeout (scripts/fetch_arxiv.py:84-88): network I/O. Its failures are not modelled.
- XML parsing by `ET.fromstring` and the namespace-qualified `find`/`findall` (scripts/fetch_arxiv.py:36, 43, 46, 53, 58): a foreign library. The parsed feed is the `Atom` datatypes instead, so a malformed document and its parse error are not modelled. An element's text is taken as given; in ElementTree it is only the text before the first child element.
- `urllib.parse.urlencode` and its percent-encoding (scripts/fetch_arxiv.py:32): a library call. It is a function parameter of `BuildApiUrl`, and only the ordered key/value list is modelled.
- JSON serialisation, the `datetime.now` timestamp and its formatting, `mkdir` and `write_text` (scripts/fetch_arxiv.py:93, 99-100): a library, the clock and the filesystem. The timestamp is a parameter of `BuildPayload`.
- Reading the environment variables, `int()` parsing of the limit, and the exception-to-exit-code handling of `main` (scripts/fetch_arxiv.py:103-115): process plumbing. `DEFAULT_QUERY` and `DEFAULT_MAX_RESULTS` (scripts/fetch_arxiv.py:16-17) are used only there and are not modelled.
- Strings.Lower: lower-cases ASCII letters only, not the full Unicode mapping of `str.lower()`. For the two comparisons the script makes, against "pdf" and "application/pdf", this gives the same verdict. Among non-ASCII characters, only the Kelvin sign lower-cases to an ASCII letter ("k"), and "k" appears in neither target. U+0130 lower-cases to two characters, one of them a combining mark, so it never matches either.
