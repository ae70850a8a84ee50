# arXiv PDF downloader: a Dafny model

This project models the part of the arXiv downloader that decides what gets
downloaded and under which name. The downloader has three front ends:

- **Chrome extension** (`chrome_ext/arxiv_download.js`). `main(arxiv, folder, pattern)`
  turns the user's input into a list of arXiv identifiers:
  - an `arxiv.org` link gives its first identifier;
  - another `http` address that contains an identifier anywhere gives that first identifier;
  - another `http` address without one gives the identifiers the page scanner finds in the active tab;
  - anything else is read as a `[, ]+`-separated list of whole identifiers.

  For each identifier, `downloadPdf` looks up the title, sanitises it, builds
  the file name with two `String.replace` calls and requests
  `https://arxiv.org/pdf/<id>.pdf`.
- **Popup** (`chrome_ext/popup.js`). `processInput` decides which identifiers
  are offered for a given input. The download button calls `main` once per
  selected identifier, one after the other.
- **Command-line scripts** (`python/arxiv_download.py` and `arxiv_download.py`).
  `main` splits the argument on `[,\s]+` and calls `download_pdf` once per
  token. The first script first routes the argument:
  - an `arxiv.org` link becomes its last `/`-segment;
  - a web page becomes the set of identifiers its arXiv links carry, joined with `", "`.

  `download_pdf` keeps the link's last `/`-segment as the identifier. It skips
  an identifier the API has no entry for. Otherwise it formats the file name
  with `str.format` and requests the PDF for `os.path.join(folder, name + ".pdf")`.

The modules follow that structure:

- `Text`: character classes, `startsWith`/`includes`, the last `/`-segment,
  trimming, splitting on separator runs.
- `Sanitizer`: the file name sanitiser the three front ends share.
- `ArxivId`: the identifier pattern `\d+\.\d+(v\d+)?` as an explicit greedy
  recogniser, with an independent reference definition.
- `PageScan`: the two page scanners (the extension's `matchAll` + `Set`, the
  script's `findall` + `set`).
- `JsReplace`: `String.prototype.replace` with a string search value, including
  the `$` substitutions of section 22.1.3.19.1 of ECMA-262.
- `PyFormat`: `str.format` restricted to the two replacement fields the scripts pass.
- `Links`: the abstract-page link and the PDF address built from an identifier.
- `Extension`, `Popup`: the extension's `downloadPdf`, `extractArxivIds`, `main`
  and the popup.
- `PyDownload`: `download_pdf` and the download loop, which are identical in both scripts.
- `ScriptCli`, `BasicCli`: the `main` of `python/arxiv_download.py` and of `arxiv_download.py`.

Outside effects become parameters:

- The arXiv title lookup is an oracle from identifier to answer:
  - the extension's answer is a title or `null`;
  - the scripts' answer is a title, no entry, or an exception.
- The text of the active tab and the answer to the script's page request are parameters.
- The user's home directory is a parameter.
- A download is the request that would be issued: URL plus file name, or URL plus path.
- An exception in the scripts ends the download loop (`Raised`).
- Python's unordered `set` iteration is a nondeterministic choice. `ScriptCli.Enumerate`
  picks elements with `:|`, and the chosen order is returned as a ghost value.

Some behaviour of the program that the model keeps as it is:

- The extension replaces only the first `{arxiv_id}` and the first `{title}` in the file
  name pattern, and expands `$&`, `` $` ``, `$'` and `$$` in the replacement text.
- The scripts' `str.format` replaces every occurrence of a field and raises on any other
  field.
- The page patterns accept any `\w+` path segment after `arxiv.org/`, not only `abs` and `pdf`.
- The extension's `Set` keeps first-occurrence order (`PageScan.DedupOrder`).
- In the scripts, a title lookup that fails with an HTTP error raises and ends the whole run.
- `extractArxivIds` returns the first identifier found anywhere in the input, not only
  when the whole input is an identifier.
- The extension's page scanner accepts an upper-case `V` version mark, which `main`'s
  own filter then rejects. Selecting such an identifier in the popup downloads nothing
  (`Popup.SelectedIdRouting`).

## Model

| member | source | states |
|---|---|---|
| Text.RunEnd | chrome_ext/arxiv_download.js:225 | the end of the maximal run of class characters starting at `i`: everything before it is in the class and the character at it is not |
| Text.BreakEnd | chrome_ext/arxiv_download.js:225 | the end of the maximal run of non-separator characters starting at `i`: the next character, if any, is a separator |
| Text.IndexOf | chrome_ext/arxiv_download.js:216 | `includes`/`in`: the result is an occurrence at or after `from` and no occurrence precedes it; None exactly when there is none |
| Text.IndexOfFirst | chrome_ext/arxiv_download.js:216 | an occurrence with none before it is the one found |
| Text.LastSegment | chrome_ext/arxiv_download.js:44 | `split('/').pop()` / `split('/')[-1]`: a '/'-free tail of the string, preceded by '/' unless it is the whole string |
| Text.LastSegmentSuffix | python/arxiv_download.py:39 | the last segment is a suffix of the string |
| Text.LastSegmentWhole | arxiv_download.py:38 | a string without '/' is its own last segment |
| Text.LastSegmentAfterSlash | python/arxiv_download.py:39 | after a prefix ending in '/', a '/'-free identifier is recovered exactly |
| Text.LastSegmentAppend | arxiv_download.py:38 | a prefix ending in '/' does not change the last segment |
| Text.TrimStart | chrome_ext/arxiv_download.js:2 | drops exactly the leading whitespace: what is dropped is whitespace and the result starts with a non-whitespace character |
| Text.TrimEnd | chrome_ext/arxiv_download.js:2 | drops exactly the trailing whitespace |
| Text.Trim | python/arxiv_download.py:13 | `trim()`/`strip()`: only leading and trailing whitespace is dropped and the result has non-whitespace ends |
| Text.TrimSlice | python/arxiv_download.py:30 | the trimmed text is the slice of the input between its leading and trailing whitespace |
| Text.TrimNoop | python/arxiv_download.py:13 | a text with non-whitespace ends is unchanged by trimming |
| Text.Split | python/arxiv_download.py:147 | splitting on separator runs: at least one piece, no piece contains a separator, inner pieces are non-empty, a text without separators is one piece |
| Text.SplitJoin | python/arxiv_download.py:93 | non-empty separator-free pieces joined by a separator string split back into the same pieces |
| Text.SplitStep | python/arxiv_download.py:147 | a piece, a separator run and a rest split as that piece followed by the rest's pieces |
| Text.AbsentFirstChar | chrome_ext/arxiv_download.js:216-220 | a text without the first character of a pattern neither contains nor starts with it |
| Sanitizer.ReplaceForbidden | chrome_ext/arxiv_download.js:2 | first pass: same length, every forbidden character becomes '-', every other character is kept in place |
| Sanitizer.CollapseWhitespace | python/arxiv_download.py:12 | second pass: single-spaced result with the same visible characters, each character a space or taken from the input |
| Sanitizer.CollapseRun | python/arxiv_download.py:12 | a whitespace run followed by a visible character or by nothing becomes one space |
| Sanitizer.CollapseAppend | chrome_ext/arxiv_download.js:2 | after a visible character, the two parts of a text collapse independently |
| Sanitizer.CollapseWord | python/arxiv_download.py:12 | a text without whitespace is unchanged |
| Sanitizer.CollapseBetween | python/arxiv_download.py:12 | `\s+` -> `" "`: a maximal whitespace run between two parts becomes exactly one space, and each part collapses on its own |
| Sanitizer.Sanitize | chrome_ext/arxiv_download.js:2 | `sanitizeFilename` / `sanitize_filename`: replace, collapse, trim; its properties are stated by SanitizeSpec, SanitizeWords, SanitizeIdempotent and SanitizeClean |
| Sanitizer.SanitizeWords | python/arxiv_download.py:10-13 | two words free of whitespace and forbidden characters, separated by any run of whitespace other than newline, come out joined by exactly one space |
| Sanitizer.SanitizeSpec | python/arxiv_download.py:10-13 | the sanitised name has no forbidden character, no whitespace but single inner spaces, no leading or trailing space, and keeps every visible character of the first pass |
| Sanitizer.SanitizeClean | arxiv_download.py:9-12 | an already clean name is left unchanged |
| Sanitizer.SanitizeIdempotent | chrome_ext/arxiv_download.js:1-3 | sanitising twice is sanitising once |
| Sanitizer.SanitizeExample | chrome_ext/arxiv_download.js:2 | `"A: Study/Of X"` becomes `"A- Study-Of X"` |
| Sanitizer.SanitizeAfterReplace | python/arxiv_download.py:11-13 | when the first pass already gives a clean name, that name is the result |
| Sanitizer.CollapseSingleSpaced | python/arxiv_download.py:12 | collapsing a single-spaced text changes nothing |
| Sanitizer.TrimKeepsShape | python/arxiv_download.py:13 | trimming a single-spaced text without forbidden characters gives a clean text with the same visible characters |
| Sanitizer.VisibleTrim | python/arxiv_download.py:13 | trimming keeps every visible character |
| ArxivId.MatchAt | chrome_ext/arxiv_download.js:89 | the greedy recogniser of `\d+\.\d+(?:v\d+)?` at a position: a match ends after its start and inside the text; MatchAtSound, MatchAtComplete and MatchAtLongest state what it finds |
| ArxivId.MatchAtSound | chrome_ext/arxiv_download.js:89 | the greedy recogniser's match is an identifier by the reference definition |
| ArxivId.MatchAtComplete | chrome_ext/arxiv_download.js:89 | every identifier match at a position is found, and the recogniser's match is at least as long |
| ArxivId.MatchAtLongest | chrome_ext/arxiv_download.js:217 | greedy matching is longest matching: None exactly when nothing matches, otherwise a match with no longer one |
| ArxivId.FullMatchIsId | chrome_ext/arxiv_download.js:225 | the anchored test `^\d+\.\d+(?:v\d+)?$` holds exactly for identifiers |
| ArxivId.FindFrom | chrome_ext/arxiv_download.js:94 | the search returns the leftmost position with a match, and its greedy end; no position before it matches |
| ArxivId.FirstId | chrome_ext/arxiv_download.js:94 | `input.match(/\d+\.\d+(?:v\d+)?/)`: the first identifier in the text, stated by FirstIdSpec |
| ArxivId.FirstIdSpec | chrome_ext/arxiv_download.js:94-96 | `input.match(...)[0]`: None exactly when no identifier occurs, otherwise the leftmost-longest occurrence |
| ArxivId.FirstIdIsId | chrome_ext/arxiv_download.js:217-219 | the first match is itself an identifier |
| ArxivId.KeepIds | chrome_ext/arxiv_download.js:225 | `filter`: exactly the tokens that are whole identifiers are kept, and nothing else |
| ArxivId.KeepIdsAppend | chrome_ext/popup.js:115 | filtering distributes over concatenation, so order is preserved |
| ArxivId.KeepIdsAll | chrome_ext/popup.js:115 | a list of whole identifiers is kept unchanged |
| ArxivId.IdChars | chrome_ext/arxiv_download.js:225 | an identifier is non-empty, starts and ends with a digit, and consists of digits, '.' and version marks |
| ArxivId.IdCaseless | chrome_ext/arxiv_download.js:166 | an identifier with a lower-case version mark also matches the caseless page pattern |
| PageScan.SitePathPrefix | chrome_ext/arxiv_download.js:166 | the caseless `arxiv\.org\/(?:\w+)\/` prefix at a position: when it matches, it ends after that position and inside the text |
| PageScan.ColonPrefix | chrome_ext/arxiv_download.js:187 | the caseless `arxiv:[\s]*` prefix at a position: when it matches, it ends after that position and inside the text |
| PageScan.LinkPrefix | python/arxiv_download.py:87 | the caseless `https?://arxiv\.org/\w+/` prefix at a position: when it matches, it ends after that position and inside the text |
| PageScan.HitAt | chrome_ext/arxiv_download.js:166 | a hit found at a position lies after that position and inside the text |
| PageScan.Scan | chrome_ext/arxiv_download.js:167 | `matchAll`: each hit is the match at its position, and hits are in order without overlap |
| PageScan.ScanFirst | chrome_ext/arxiv_download.js:167 | no match begins before the first hit |
| PageScan.ScanBetween | chrome_ext/arxiv_download.js:167 | no match begins between the end of one hit and the next hit |
| PageScan.ScanLast | chrome_ext/arxiv_download.js:167 | no match begins after the last hit |
| PageScan.ScanText | chrome_ext/arxiv_download.js:187-188 | the scan of a page: every hit is a match, hits are ordered and non-overlapping, and no match is skipped anywhere |
| PageScan.HitSpec | chrome_ext/arxiv_download.js:187 | each hit is a prefix match ending where the captured identifier starts, and the capture is the greedy identifier there |
| PageScan.Captures | chrome_ext/arxiv_download.js:168 | `match[1]` for each hit: one capture per hit, the text between the identifier bounds |
| PageScan.Dedup | chrome_ext/arxiv_download.js:189 | `[...new Set(...)]`: the same elements, each once |
| PageScan.DedupOrder | chrome_ext/arxiv_download.js:189 | deduplicated elements keep the order of their first occurrences |
| PageScan.FirstIndex | chrome_ext/arxiv_download.js:189 | the first position of an element: it is there and not earlier |
| PageScan.CaptureOrigin | python/arxiv_download.py:90 | every captured identifier is the text of some hit of the scan |
| PageScan.ExtensionPageIds | chrome_ext/arxiv_download.js:166-168 | the extension's page scan, deduplicated in first-occurrence order; stated by ExtensionPageIdsSpec and ExtensionPageIdsPrefixed |
| PageScan.ExtensionPageIdsSpec | chrome_ext/arxiv_download.js:186-189 | the extension's page identifiers are distinct, are exactly the captures, follow first-occurrence order, and are identifiers with `v` or `V` versions |
| PageScan.ExtensionPageIdsPrefixed | chrome_ext/arxiv_download.js:187 | each page identifier follows an `arxiv.org/<word>/` or `arxiv:` prefix in the text |
| PageScan.ScriptPageIds | python/arxiv_download.py:87-90 | `set(re.findall(...))` over the page text; stated by ScriptPageIdsSpec and CaptureOrigin |
| PageScan.ScriptPageIdsSpec | python/arxiv_download.py:87-90 | each identifier the script finds has no version and follows an `http(s)://arxiv.org/<word>/` link in the text |
| JsReplace.Expand | chrome_ext/arxiv_download.js:56-57 | GetSubstitution for a string search value: `$$`, `$&`, `` $` `` and `$'` are expanded; stated by ExpandPlain, ExpandEscape and FileNameDollarAmp |
| JsReplace.ReplaceFirst | chrome_ext/arxiv_download.js:56 | `s.replace(pat, repl)` with a string `pat`; stated by ReplaceFirstAbsent and ReplaceFirstAt |
| JsReplace.FileName | chrome_ext/arxiv_download.js:55-57 | the two chained `replace` calls that build the file name; stated by FileNameDefault, FileNameFirstOnly and FileNameDollarAmp |
| JsReplace.ExpandPlain | chrome_ext/arxiv_download.js:56-57 | a replacement without `$` is inserted as it is |
| JsReplace.ExpandEscape | chrome_ext/arxiv_download.js:57 | a replacement with every `$` doubled inserts the original text, whatever the match and its context |
| JsReplace.ReplaceFirstAbsent | chrome_ext/arxiv_download.js:56 | without an occurrence the string is unchanged |
| JsReplace.ReplaceFirstAt | chrome_ext/arxiv_download.js:56 | only the first occurrence is replaced; text before and after it is kept |
| JsReplace.FileNameDefault | chrome_ext/arxiv_download.js:55-57 | the default pattern gives `<id> - <title>` for an identifier and title without `$` and an identifier without `{` |
| JsReplace.FileNameFirstOnly | chrome_ext/arxiv_download.js:55-57 | `"{title} {title}"` gives the title once, followed by the literal second `{title}` |
| JsReplace.FileNameDollarAmp | chrome_ext/arxiv_download.js:57 | a title `$&` inserts the matched `{title}` instead of itself |
| PyFormat.Parse | python/arxiv_download.py:49 | reads a pattern into literal characters and the two fields, None where `format` raises and also for format specs, conversions and index access (see "## Left out"); stated by ParseUnparse, UnparseParse and FormatRaises |
| PyFormat.Format | python/arxiv_download.py:49 | `filename_pattern.format(arxiv_id=..., title=...)`, None where it raises; stated by FormatUnparse, FormatDefault, FormatEveryOccurrence, FormatNoBraces and FormatRaises |
| PyFormat.RenderAppend | python/arxiv_download.py:49 | formatting is piecewise: every field occurrence is replaced, wherever it is |
| PyFormat.ParseUnparse | python/arxiv_download.py:49 | reading the text of any pieces gives back those pieces |
| PyFormat.UnparseParse | python/arxiv_download.py:49 | a pattern `format` accepts is exactly the text of its pieces |
| PyFormat.FormatUnparse | arxiv_download.py:48 | formatting the text of some pieces renders those pieces |
| PyFormat.FormatNoBraces | python/arxiv_download.py:49 | a pattern without braces formats to itself |
| PyFormat.FormatDefault | python/arxiv_download.py:49 | the default pattern gives `<id> - <title>` for every identifier and title |
| PyFormat.FormatEveryOccurrence | python/arxiv_download.py:49 | `"{title} {title}"` gives the title twice |
| PyFormat.FormatRaises | python/arxiv_download.py:49 | an unknown field, a lone `}` and an unclosed field make `format` raise |
| Links.AbsLinks | chrome_ext/arxiv_download.js:235-238 | one abstract link per identifier, in order |
| Links.AbsLinksRecover | chrome_ext/arxiv_download.js:44 | `downloadPdf` recovers each '/'-free identifier from the link built for it |
| Links.AbsLinkId | python/arxiv_download.py:153 | the identifier `download_pdf` extracts from the link built for a token is that token's last '/'-segment |
| Extension.DownloadPdf | chrome_ext/arxiv_download.js:43-57 | a request is issued exactly when the title lookup gives a non-empty title, for the PDF of the link's last segment, under the name `JsReplace.FileName(pattern, id, Sanitize(title)) + ".pdf"`: the pattern with its first `{arxiv_id}` and then its first `{title}` replaced |
| Extension.DownloadPdfOfId | chrome_ext/arxiv_download.js:43-70 | for a '/'-free identifier under the default pattern, the request is that identifier's PDF saved as `<id> - <sanitised title>.pdf` |
| Extension.EffectivePattern | chrome_ext/arxiv_download.js:213 | a missing or empty pattern is replaced by the default; a non-empty one is kept |
| Extension.ExtractArxivIds | chrome_ext/arxiv_download.js:86-111 | `extractArxivIds`; stated by ExtractArxivIdsSpec |
| Extension.ExtractArxivIdsSpec | chrome_ext/arxiv_download.js:86-111 | a single leftmost-longest identifier when the input contains one; otherwise the page identifiers for `http`/`file:///` input with a readable tab, and none otherwise |
| Extension.RouteIds | chrome_ext/arxiv_download.js:215-226 | the routing of `main`; stated by RouteIdsSpec, RouteIdList and RouteIdsSlashFree |
| Extension.RouteIdsSpec | chrome_ext/arxiv_download.js:215-226 | an `arxiv.org` input gives its first identifier or nothing; a plain input gives exactly its tokens that are whole identifiers |
| Extension.RouteIdsSlashFree | chrome_ext/arxiv_download.js:215-226 | no routed identifier contains '/' |
| Extension.JoinedIds | chrome_ext/arxiv_download.js:225 | a `", "`-joined list of identifiers contains neither `arxiv.org` nor a leading `http`, and splits back into the identifiers |
| Extension.RouteIdList | chrome_ext/arxiv_download.js:220-226 | a `", "`-joined list of whole identifiers is routed to exactly that list |
| Extension.DownloadsFor | chrome_ext/arxiv_download.js:235-239 | the requests of successive `downloadPdf` calls, in call order; stated by DownloadsForNoTitles, DownloadsForAllTitles, DownloadsForAtMost and DownloadsForIds |
| Extension.DownloadsForNoTitles | chrome_ext/arxiv_download.js:53 | when no identifier has a title, no request is issued |
| Extension.DownloadsForAllTitles | chrome_ext/arxiv_download.js:235-239 | when every identifier has a title, one request per link, in order, each the request `downloadPdf` makes for that link (its PDF and its file name) |
| Extension.DownloadsForAtMost | chrome_ext/arxiv_download.js:235-239 | at most one request per identifier |
| Extension.DownloadsForIds | chrome_ext/arxiv_download.js:235-239 | for '/'-free identifiers: all titled gives one request per identifier, in order, for its PDF under the name the pattern gives with its sanitised title; none titled gives no request |
| Extension.DownloadEach | chrome_ext/arxiv_download.js:235-239 | the loop builds one abstract link per identifier, each recovering its identifier, and issues the requests `downloadPdf` gives for them in order |
| Extension.RunMain | chrome_ext/arxiv_download.js:200-240 | `main`: the links are those of the routed identifiers (none when routing finds none), each recovers its identifier, and the requests are those of the effective pattern |
| Popup.ProcessInput | chrome_ext/popup.js:109-124 | `processInput`; stated by ProcessInputIds and ProcessInputList |
| Popup.ProcessInputIds | chrome_ext/popup.js:109-124 | every identifier the popup offers matches the identifier pattern with a `v` or `V` version |
| Popup.ProcessInputList | chrome_ext/popup.js:114-119 | a `", "`-joined list of whole identifiers is offered as it stands |
| Popup.SelectedIdRouting | chrome_ext/popup.js:17 | a selected whole identifier is routed by `main` to itself, and one with an upper-case `V` to nothing |
| Popup.UpperVersionRouting | chrome_ext/arxiv_download.js:225 | an identifier with an upper-case `V` is not a whole identifier for `main` and is routed to nothing |
| Popup.WholeIdNoUpper | chrome_ext/arxiv_download.js:225 | a whole identifier has no upper-case `V` |
| Popup.SelectedDownloadsStep | chrome_ext/popup.js:16-18 | the requests for one more selected identifier are the earlier ones followed by that identifier's |
| Popup.SelectedWholeIds | chrome_ext/popup.js:16-18 | selected whole identifiers give the same requests, in selection order, as `main` on the whole list |
| Popup.DownloadSelected | chrome_ext/popup.js:13-20 | the button calls `main` once per selected identifier, in order, and issues the requests of those calls concatenated |
| PyDownload.PathJoin | python/arxiv_download.py:52 | `os.path.join`: the name is a suffix, the folder a prefix unless the name is absolute, joined by a '/' unless the name is the whole result |
| PyDownload.PathJoinName | python/arxiv_download.py:52 | the file name is the last segment of the joined path, and a folder without a trailing '/' gets one |
| PyDownload.DownloadFolder | python/arxiv_download.py:36-37 | a missing or empty folder becomes `<home>/Downloads`, any other is kept |
| PyDownload.DownloadPdf | python/arxiv_download.py:34-52 | `download_pdf`; stated by DownloadPdfSpec, DownloadPdfDefault and DownloadPdfBlankTitle |
| PyDownload.DownloadPdfSpec | python/arxiv_download.py:34-52 | skips exactly when the API has no entry; raises exactly when the lookup raises or `format` rejects the pattern; otherwise requests the PDF of the link's last segment for `<folder>/<formatted name>.pdf` |
| PyDownload.SanitizedNoSlash | python/arxiv_download.py:11 | a sanitised title contains no '/' |
| PyDownload.DownloadPdfDefault | arxiv_download.py:33-51 | with a title and the default pattern, the request is `<folder>/<id> - <sanitised stripped title>.pdf`, and that name is the path's last segment |
| PyDownload.DownloadPdfBlankTitle | python/arxiv_download.py:30 | a blank title still downloads, as `<id> - .pdf` |
| PyDownload.Tokens | python/arxiv_download.py:147 | `re.split(r'[,\s]+', arg.strip())`: at least one token, none containing a comma or whitespace |
| PyDownload.TokensOfIdList | python/arxiv_download.py:147 | a `", "`-joined list of identifiers splits back into exactly those identifiers |
| PyDownload.Calls | python/arxiv_download.py:150-153 | one call outcome per token |
| PyDownload.CallsAt | python/arxiv_download.py:150-153 | the `k`-th outcome is the call on the `k`-th token |
| PyDownload.CallsPrefix | python/arxiv_download.py:150-153 | the outcomes of a prefix of the tokens are a prefix of the outcomes |
| PyDownload.DownloadRun | python/arxiv_download.py:150-153 | the outcomes of the download loop: one call per token in order, stopping right after the first exception; DownloadRunUnique and DownloadRunComplete state what it determines |
| PyDownload.DownloadRunUnique | python/arxiv_download.py:150-153 | a run of the loop is determined by the tokens and the lookup |
| PyDownload.DownloadRunComplete | python/arxiv_download.py:150-153 | when no call raises, every token is attempted and each request is for that token's PDF |
| PyDownload.DownloadTokens | arxiv_download.py:104-105 | the loop calls `download_pdf` on each token's abstract link in order and stops at the first exception |
| ScriptCli.EnumeratesSize | python/arxiv_download.py:90 | iterating a set visits as many elements as it has |
| ScriptCli.Enumerate | python/arxiv_download.py:93 | set iteration visits every element exactly once |
| ScriptCli.ExtractIdsFromUrl | python/arxiv_download.py:77-101 | None exactly when the request raises; `""` for a non-200 status; otherwise the page's identifiers joined with `", "` in iteration order |
| ScriptCli.Route | python/arxiv_download.py:128-140 | the routing of `main`: an `arxiv.org` argument becomes its last segment; an `http` argument becomes the page identifiers, or stops, or raises; anything else is kept |
| ScriptCli.PageTokens | python/arxiv_download.py:133-150 | the tokens from a page are its identifiers, each once, without versions, as many as the set has |
| ScriptCli.LinkTokens | python/arxiv_download.py:129-132 | an abstract link argument is routed to the single token of its identifier |
| ScriptCli.LinkMentionsArxiv | python/arxiv_download.py:129 | an abstract link contains `arxiv.org` |
| ScriptCli.RunScript | python/arxiv_download.py:128-153 | `main`: route, split and run the download loop on the tokens; nothing is downloaded when routing stops or raises; a page's tokens are its identifiers |
| BasicCli.RunBasic | arxiv_download.py:100-105 | `main`: split the argument into tokens and run the download loop on them |
| BasicCli.LinkArgument | arxiv_download.py:38 | a whole abstract link is one token, and the identifier looked up is still the original one |
| BasicCli.ListArgument | arxiv_download.py:101-105 | a `", "`-joined list of identifiers gives one token per identifier, each looked up as itself |
| BasicCli.IdFromLink | arxiv_download.py:105 | the identifier recovered from the link built for an identifier is that identifier |

## Left out

- Network access is not modelled: the arXiv API request and its XML parsing, the page
  request and BeautifulSoup's text extraction, proxies, and the PDF transfer itself.
  Their results are parameters.
- The Chrome APIs are not modelled: `chrome.tabs.query`, `chrome.scripting.executeScript`,
  the `chrome.downloads.download` callback with its error alert, and the exception when
  `chrome.downloads` is missing. A download is the request that would be issued.
- How the active tab's text is obtained is a parameter. This covers the PDF check, the
  text-layer and fallback selectors, and `innerHTML`. A tab without readable text gives no page identifiers.
- The popup's rendering is not modelled: `displayExtractedIds`, the checkboxes of
  `getSelectedIds`, and the `DOMContentLoaded` and keypress handlers. Only `processInput` and
  the download button are modelled.
- chrome_ext/background.js is not part of this model.
- The scripts' `argparse`, config file reading, `print` output and progress bar are not
  modelled. The folder, pattern and home directory are parameters.
- Writing the file is not modelled, nor the `RequestException` handling around it. A `Fetch`
  outcome is the request for a path, and the loop goes on after it. In both scripts an `OSError`
  from `open(file_path, 'wb')`, such as for a configured folder that does not exist, is not a
  `RequestException` and ends the whole run; the model does not capture that.
- A title element without text makes `.strip()` raise; it is modelled as a raising lookup.
- Whitespace is the six ASCII whitespace characters, `\d` is `0-9`, `\w` is `[A-Za-z0-9_]`,
  and case-insensitive matching folds ASCII letters only. Unicode whitespace, Unicode digits,
  Python's Unicode `\w` in the script's page pattern and Unicode case folding are left out.
- PyFormat.Parse, PyFormat.Format: format specs (`{title:.50}`, `{arxiv_id:>12}`), conversions (`{title!r}`)
  and index or attribute access (`{title[0]}`) are read as errors by `PyFormat.Parse`, like any other field, so its None is wider than where `format` raises.
  Python's `str.format` accepts them with the two keyword arguments the scripts pass, so for
  such patterns the model reports `Raised` where the script downloads.
- PyDownload.PathJoin: POSIX paths only; Windows drive letters and separators are not modelled.
- Extension.DownloadPdfOfId: the exact file name is stated only for identifiers and titles
  without `$` or `{`. Other titles go through `JsReplace.FileName`, whose `$` handling the
  JsReplace lemmas state separately.
- ScriptCli.ExtractIdsFromUrl: the iteration order of Python's set is not fixed by the
  model. It is a nondeterministic choice, returned as a ghost sequence.
- PyDownload.DownloadRunComplete: it states the PDF address of each request. The file path
  is stated per call by PyDownload.DownloadPdfSpec.
- Logging (`console.log`, `console.error`) and the progress counter printed before each
  script download are not modelled.
