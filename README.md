# Blockly release-notes generator, modelled in Dafny

`release/gen_release_notes.js` is a browser page script for preparing a
Blockly release. It queries the GitHub search API for the issues and the
pull requests of google/blockly that were closed in a date range. It
follows the `next` links of the paginated results. When the last page
arrives, it writes an HTML list into the page. For pull requests, a
header comes first: the total count, then for each number of pull
requests the logins that submitted that many. A third function fills in
the start date with the closing date of the first result of a search for
closed pull requests against master. Its name says it means the last
merge, but the query neither restricts to merged pull requests nor sets
a sort order.

The model covers:

- **`getLinks`** (`link_header.dfy`). The hand-written parser of the
  `link:` response header. The model includes its `indexOf`, `substring`
  and `split(' ')` steps, and the stride-2 walk over the tokens. It also
  models the two regular expressions `/\"[\S]+\"/` and `/\<[\S]+\>/` as
  leftmost-longest matches. It is a specification function `ParseLinks`
  plus a method `GetLinks`, proved equal to the function. `GetLinks`
  finds `link:` and splits the block, and the loop over the tokens is the
  method `WalkPairs`. The lemmas characterise the result:
  - which relations end up in the map;
  - that the last pair for a relation wins;
  - when the call throws;
  - that a `link:` line in GitHub's format reads back as the map of its
    links (`RenderRoundTrip`).

  The round trip covers the link line alone. `getAllResponseHeaders()`
  also returns the other `name: value` lines, separated by CRLF, which
  `split(' ')` does not split at. Those lines stick to the last `rel="…"`
  token, and their words are walked as further pairs. `ParsedEntries`
  and `ParseThrew` describe a block of any shape, those lines included.
- **The page loop** (`pagination.dfy`, `issue_notes.dfy`, `pr_notes.dfy`).
  The two XHR callbacks become methods that consume the finished
  responses in the order they arrive. The specification function `Run`
  says which responses are consumed, which URLs are requested and how the
  exchange stops:
  - the list is written;
  - a response was ignored;
  - `getLinks` threw;
  - or the exchange is still waiting for a page.
- **The author tally and the header** (`pr_tally.dfy`, `pr_notes.dfy`):
  - the `authors` counts, kept in first-seen order;
  - the sparse `byCommits` array indexed by count;
  - the `for … in` loop that renders one line per assigned index.
- **The merge date** (`merge_date.dfy`): `closed_at.split('T')[0]`, the
  start-date handler, and the query built from two ISO timestamps.
- **`genBlocklyReleaseNotes`** (`release_notes.dfy`): the two halves side
  by side.

The modules are shared as follows:

- `js_string.dfy` holds the JavaScript string operations the script uses.
- `optional.dfy` holds an `Option` type.

The network, the clock and the page are replaced by parameters and
results:

- A callback receives the sequence of finished (readyState 4) responses
  to its own requests, in order.
- It returns the URLs it requested.
- It returns the text it wrote into its element, `None` when it wrote
  nothing.

Two behaviours of `getLinks` follow from the code and are modelled as
written:

- **A pair whose metadata mentions `rel` but lacks a piece throws.** A
  pair whose metadata token lacks `rel` is skipped first, whatever it
  holds (`ReadPairSkipped`, lines 144-145). The `type.length == 0` and
  `link.length == 0` guards (lines 149 and 154) show that a pair missing
  its quoted relation or its bracketed URL was meant to be skipped. But
  `String.prototype.match` returns `null` when its pattern does not occur.
  Evaluating the guard then throws a TypeError, and the `continue` on
  lines 150 and 155 never runs. The whole callback stops there, and
  nothing is written (`ParseThrew`, `UnquotedRelThrows`).
- **No `link:` does not mean no links.** One might expect an empty map
  when the headers hold no `link:`. In the code, `indexOf` gives -1,
  `substring(-1)` is the whole header block, and the whole block is split
  and walked (`NoLinkHeader`). Links in GitHub's format after the first
  word are still found (`NoLinkStillParses`).

## Model

| member | source | states |
|---|---|---|
| JsString.IndexOfFirst | release/gen_release_notes.js:139 | `indexOf` is -1 exactly when the pattern occurs nowhere; otherwise it is an occurrence with none before it |
| JsString.Substring | release/gen_release_notes.js:141 | one-argument `substring`: a negative start gives the whole string, a start past the end gives the empty string, and otherwise the suffix |
| JsString.Split | release/gen_release_notes.js:141 | `split` with a one-character separator gives at least one piece, and no piece holds the separator |
| JsString.JoinSplit | release/gen_release_notes.js:141 | joining the pieces of `split` with the separator gives back the string |
| JsString.SplitJoin | release/gen_release_notes.js:141 | splitting a join of separator-free pieces gives back exactly those pieces |
| JsString.JoinHead | release/gen_release_notes.js:100 | the first piece of a `join` is a prefix of the result, followed by the separator when there are more pieces |
| JsString.IndexOf | release/gen_release_notes.js:139 | `indexOf`: the first position at which the pattern occurs, or -1; the result lies between -1 and the length |
| JsString.IndexFrom | release/gen_release_notes.js:143 | the scan behind `indexOf`: the first occurrence at or after a position, or -1 |
| JsString.Join | release/gen_release_notes.js:100 | `join(', ')`: the pieces with the separator between consecutive ones; nothing for no pieces, the piece itself for one |
| JsString.Digit | release/gen_release_notes.js:43-44 | the digit character for a value below 10, whose code is `'0'` plus that value |
| JsString.NatToString | release/gen_release_notes.js:43-44 | the decimal text of a number concatenated to a string is non-empty, all digits, with no leading zero |
| JsString.DecimalRoundTrip | release/gen_release_notes.js:43-44 | the digits of a rendered number read back as that number |
| JsString.NatToStringInjective | release/gen_release_notes.js:43-44 | different issue numbers render as different texts |
| JsString.IsWhitespace | release/gen_release_notes.js:137-138 | the `\s` class that `[\S]` excludes: ECMAScript's WhiteSpace and LineTerminator code points, TAB, LF, VT, FF, CR, SP, NBSP, U+1680, U+2000–U+200A, U+2028, U+2029, U+202F, U+205F, U+3000 and U+FEFF |
| LinkHeader.RunEnd | release/gen_release_notes.js:137-138 | the greedy `[\S]+`: the end of the run of non-whitespace characters from a position, never before it and never past the end |
| LinkHeader.LastIn | release/gen_release_notes.js:137-138 | the backtracking of the greedy run to the last closing delimiter in a range, or none, always inside the range |
| LinkHeader.MatchFrom | release/gen_release_notes.js:148 | the leftmost scan of `String.prototype.match` from a position: the first start holding the opening delimiter whose run has a closing one; a match lies after the start, with at least one character between its delimiters |
| LinkHeader.RunEndIsRun | release/gen_release_notes.js:137-138 | the run `[\S]+` scanned from a position holds no whitespace and ends at whitespace or the end |
| LinkHeader.LastInIsLast | release/gen_release_notes.js:137-138 | the closing delimiter chosen is the last one in the run, and there is none exactly when the run holds none |
| LinkHeader.MatchFromLeftmostLongest | release/gen_release_notes.js:137-138 | the match search from a position finds the leftmost delimited run, and of those starting there the longest |
| LinkHeader.Match | release/gen_release_notes.js:148 | a match spans at least three characters inside the string |
| LinkHeader.MatchLeftmostLongest | release/gen_release_notes.js:148-153 | `match` gives `null` exactly when no run `open[\S]+close` occurs; otherwise it gives the leftmost, and of those starting there the longest |
| LinkHeader.MatchText | release/gen_release_notes.js:148-153 | the matched text holds at least its two delimiters and one character |
| LinkHeader.MatchTextShape | release/gen_release_notes.js:148-157 | the matched text is the opening delimiter, a non-empty whitespace-free run and the closing delimiter, so `substring(1, length - 1)` strips exactly the delimiters |
| LinkHeader.DelimitedAt | release/gen_release_notes.js:137-138 | the meaning of `/open[\S]+close/` at a span: the opening delimiter, one or more non-whitespace characters, and the closing delimiter |
| LinkHeader.Unwrap | release/gen_release_notes.js:152 | `m.substring(1, m.length - 1)`: the matched text without its first and last character |
| LinkHeader.ReadPair | release/gen_release_notes.js:143-157 | one loop iteration: skipped when the metadata lacks `rel`; `null` (a throw) when the quote match of the metadata, tried first, or the bracket match of the URL token finds nothing; otherwise the entry of the unwrapped relation and URL |
| LinkHeader.ReadPairThrows | release/gen_release_notes.js:143-157 | a pair throws exactly when its metadata mentions `rel` and either has no quoted run or its URL token has no bracketed run |
| LinkHeader.ReadPairSkipped | release/gen_release_notes.js:143-146 | a pair is skipped exactly when its metadata token does not contain `rel` |
| LinkHeader.ReadPairEntry | release/gen_release_notes.js:148-158 | a stored pair's relation and URL are the insides of the two matches, non-empty and without whitespace |
| LinkHeader.Tokens | release/gen_release_notes.js:139-141 | the header block from `link:` on, split at spaces, is never an empty list |
| LinkHeader.ReadPairs | release/gen_release_notes.js:142-143 | the loop reads one pair per iteration, from the tokens at positions 2k+1 and 2k+2 |
| LinkHeader.PairCount | release/gen_release_notes.js:142 | `for (i = 1; i < length - 1; i += 2)` runs (length - 1) / 2 times, rounded down |
| LinkHeader.Step | release/gen_release_notes.js:144-158 | what one pair does to `links`: a skipped pair leaves it, a stored pair sets `links[type] = link`, a `null` match throws at the pair's URL token |
| LinkHeader.Rest | release/gen_release_notes.js:142-159 | the loop from pair k on: the pairs applied in order, stopping at the first throw |
| LinkHeader.ParseTokens | release/gen_release_notes.js:140-160 | the loop over all pairs of the split tokens, from an empty `links` |
| LinkHeader.ParseLinks | release/gen_release_notes.js:136-161 | `getLinks(headers)`: split the block from `link:` on at spaces, then walk the pairs |
| LinkHeader.MapOf | release/gen_release_notes.js:158 | the map `links[type] = link` builds from links stored in order, a later one overriding an earlier |
| LinkHeader.ReadPairAt | release/gen_release_notes.js:143-157 | one loop iteration computes exactly the pair result of its two tokens |
| LinkHeader.GetLinks | release/gen_release_notes.js:136-161 | `getLinks` returns exactly `ParseLinks(headers)`: the map, or the position where it threw |
| LinkHeader.WalkPairs | release/gen_release_notes.js:140-160 | the stride-2 loop that fills `links` in place computes exactly the specification over the tokens |
| LinkHeader.RestThrew | release/gen_release_notes.js:142-159 | the rest of the loop throws exactly when a later pair has a null match, and does so at the first such pair |
| LinkHeader.RestKeys | release/gen_release_notes.js:142-159 | a relation is a key at the end exactly when it was one before or a later pair stores it |
| LinkHeader.RestOrigin | release/gen_release_notes.js:142-159 | every final value is either untouched from before or the URL of a later pair for that relation |
| LinkHeader.RestLastWins | release/gen_release_notes.js:142-159 | the final URL of a relation is that of the last pair storing it |
| LinkHeader.LastWinsHere | release/gen_release_notes.js:158 | a pair that no later pair overrides keeps its URL in the final map |
| LinkHeader.ParsedEntries | release/gen_release_notes.js:136-161 | after a call that returns, the keys are exactly the stored relations, each with the URL of its last pair |
| LinkHeader.ParseThrew | release/gen_release_notes.js:148-156 | the call throws exactly when some pair has a null match, and at the URL token of the first one |
| LinkHeader.ReadPairsIgnoreFirst | release/gen_release_notes.js:142 | the token at position 0 is never read by any pair |
| LinkHeader.FirstTokenIgnored | release/gen_release_notes.js:142 | the result does not depend on the token before the first space |
| LinkHeader.NoLinkStillParses | release/gen_release_notes.js:139-141 | a header block without `link:` whose first word is followed by links in GitHub's format still gives the map of those links |
| LinkHeader.NoLinkHeader | release/gen_release_notes.js:139-141 | without `link:` in the headers, the whole header block is split and walked |
| LinkHeader.ReadPairsEntry | release/gen_release_notes.js:148-158 | a stored pair's relation and URL are non-empty, and the URL holds no space |
| LinkHeader.ParsedNonEmpty | release/gen_release_notes.js:136-161 | every relation and URL in a returned map is non-empty, so `if (links['next'])` only tests presence |
| LinkHeader.FirstPairThrows | release/gen_release_notes.js:148-149 | a null match in the first pair makes the call throw there, whatever follows |
| LinkHeader.UnquotedRel | release/gen_release_notes.js:148-149 | metadata that mentions `rel` without any double quote makes the pair throw |
| LinkHeader.UnquotedRelThrows | release/gen_release_notes.js:148-149 | `link: <p2>; rel=next` throws at token 1 instead of being skipped |
| LinkHeader.UrlTokenRead | release/gen_release_notes.js:153-157 | the bracket match of a GitHub URL token `<url>;` is exactly `<url>` |
| LinkHeader.RelTokenRead | release/gen_release_notes.js:143-152 | a GitHub metadata token `rel="r"` mentions `rel` at 0, and its quote match is exactly `"r"` |
| LinkHeader.ReadPairRendered | release/gen_release_notes.js:143-158 | a GitHub-format pair is read as the entry of its relation and URL |
| LinkHeader.LinkTokens | release/gen_release_notes.js:141 | a rendered list of links has two tokens per link |
| LinkHeader.HeaderTokens | release/gen_release_notes.js:141 | a rendered header has `link:` and then two tokens per link |
| LinkHeader.RestAll | release/gen_release_notes.js:142-159 | when every pair stores a link, the loop builds the map of storing the links in order |
| LinkHeader.HeaderTokensNoSpace | release/gen_release_notes.js:141 | no token of a GitHub-format header holds a space |
| LinkHeader.RenderTokens | release/gen_release_notes.js:139-141 | `getLinks`' tokens of a GitHub-format header are that header's tokens |
| LinkHeader.LinkTokensAt | release/gen_release_notes.js:142-143 | link j's URL and metadata tokens sit at positions 2j and 2j+1 of the link tokens |
| LinkHeader.HeaderTokenAt | release/gen_release_notes.js:142-143 | link j's tokens are the ones the loop reads as its j-th pair |
| LinkHeader.HeaderPairs | release/gen_release_notes.js:142-158 | every pair of a GitHub-format header stores its link |
| LinkHeader.ParseHeaderTokens | release/gen_release_notes.js:142-160 | walking the tokens of a GitHub-format header returns the map of its links, a later relation overriding an earlier |
| LinkHeader.RenderRoundTrip | release/gen_release_notes.js:136-161 | `getLinks` of a header `link: <u1>; rel="r1", <u2>; rel="r2", …` returns the map of those links |
| Pagination.HasNext | release/gen_release_notes.js:47 | the truthiness test `if (links['next'])`: `next` is present and not the empty string |
| Pagination.OutcomeOf | release/gen_release_notes.js:38-52 | what a response makes the handler do: nothing on a status other than 200; stop when `getLinks` throws; request `links['next']` when it is truthy; otherwise write the list |
| Pagination.StopAt | release/gen_release_notes.js:38-52 | how an outcome other than a follow-up request ends the exchange |
| Pagination.Drive | release/gen_release_notes.js:37-59 | the exchange from the first response on, with no URL followed yet |
| Pagination.HasNextParsed | release/gen_release_notes.js:47 | on a returned map, the truthiness test of `links['next']` is the presence of `next` |
| Pagination.OutcomeFinal | release/gen_release_notes.js:38-52 | a page ends the exchange exactly when its status is 200, its headers parse and there is no `next`; it is followed exactly when there is one |
| Pagination.Outcomes | release/gen_release_notes.js:37-53 | one outcome per response |
| Pagination.Run | release/gen_release_notes.js:37-53 | the handler consumes responses from the current one on, and every stop other than waiting consumes at least one |
| Pagination.PageOutcome | release/gen_release_notes.js:46-52 | for a page with status 200, the code after the item loop decides exactly the page's outcome, and never ignores the page |
| Pagination.RunSteps | release/gen_release_notes.js:37-53 | from any response on, the handler requests each `next` URL in order until the first response without one, and that response decides the stop |
| Pagination.DriveSteps | release/gen_release_notes.js:37-59 | the URLs requested after the query are exactly the `next` URLs of the leading responses that have one, in order |
| Pagination.DriveRendered | release/gen_release_notes.js:46-51 | the list is written after the n-th response exactly when all earlier ones had a `next` link and the n-th parsed without one |
| Pagination.DriveAwaiting | release/gen_release_notes.js:46-49 | the handler is still waiting exactly when every response so far had a `next` link |
| Pagination.ItemLine | release/gen_release_notes.js:43-44 | an entry: the title, ` (`, the base URL, the item number in decimal, and `)\n<br>` |
| Pagination.Lines | release/gen_release_notes.js:41-45 | the entries of a list of items, in item order |
| Pagination.Items | release/gen_release_notes.js:37-53 | the items of a run of pages, page after page |
| Pagination.PagesText | release/gen_release_notes.js:36-45 | the text the handler has accumulated after n pages, page after page |
| Pagination.ItemLineDistinct | release/gen_release_notes.js:43-44 | two items with the same title and different numbers get different entries, because the decimal rendering of a number is injective |
| Pagination.ItemLineNumber | release/gen_release_notes.js:43-44 | an entry is the title, ` (`, the base URL, digits that read back as the item number, and `)\n<br>` |
| Pagination.LinesAppend | release/gen_release_notes.js:41-45 | the entries of two lists of items, one after the other, are the entries of the joined list |
| Pagination.LinesNextPage | release/gen_release_notes.js:41-45 | one more page appends that page's entries after those of the earlier pages |
| Pagination.LinesNextItem | release/gen_release_notes.js:43-44 | one more item appends its entry |
| Pagination.PagesTextLines | release/gen_release_notes.js:36-45 | appending page after page gives the entries of all items of those pages, in page order |
| IssueNotes.IssueQuery | release/gen_release_notes.js:56-57 | the first URL: closed issues of google/blockly between the two dates, 100 per page |
| IssueNotes.IssueList | release/gen_release_notes.js:37-53 | the `issues` text: the entries of every consumed page when the exchange ends on a page without `next`, and nothing otherwise |
| IssueNotes.TwoPages | release/gen_release_notes.js:37-53 | a page with `next` followed by one without: one follow-up request, then the entries of both pages, first page first |
| IssueNotes.AppendEntries | release/gen_release_notes.js:41-45 | the item loop appends exactly the entries of the page's items |
| IssueNotes.IssueHandler | release/gen_release_notes.js:36-54 | the handler requests exactly the URLs of `Run` and writes the entries of every consumed page once the exchange ends with a page without `next`, and nothing otherwise |
| IssueNotes.GenIssueNotes | release/gen_release_notes.js:34-60 | the requests are the issue query, then the followed `next` URLs; the `issues` text is that of `IssueList` |
| PrTally.Record | release/gen_release_notes.js:78-82 | one pull request by a login: a truthy (non-zero) count goes up by one; otherwise the login is added at the end of the order with count 1 |
| PrTally.TallyFrom | release/gen_release_notes.js:74-83 | a tally after the pull requests of a list, recorded one after the other |
| PrTally.Tally | release/gen_release_notes.js:64-83 | the `authors` tally of a list of pull requests, starting from `[]` |
| PrTally.TallyFromAppend | release/gen_release_notes.js:74-83 | counting two runs of pull requests one after the other is counting the joined run, so counting across pages is counting all items |
| PrTally.Submitters | release/gen_release_notes.js:78 | one login per pull request |
| PrTally.SubmittersLast | release/gen_release_notes.js:78 | one more pull request appends its login |
| PrTally.TallyLogins | release/gen_release_notes.js:78-82 | the authors are exactly the logins that submitted a pull request, each listed once, each with a count of at least 1 |
| PrTally.TallyCounts | release/gen_release_notes.js:78-82 | each author's count is the number of pull requests they submitted |
| PrTally.First | release/gen_release_notes.js:90 | the first position of a login, or the length when it does not occur |
| PrTally.FirstAppend | release/gen_release_notes.js:90 | appending a login does not move any earlier first position |
| PrTally.TallyOrder | release/gen_release_notes.js:78-82 | authors are listed in the order of their first pull request, the order `for (var author in authors)` visits them |
| PrTally.TotalUpdate | release/gen_release_notes.js:79-81 | changing one author's count changes the sum of the counts by the difference |
| PrTally.Total | release/gen_release_notes.js:78-82 | the counts of the listed authors, added up |
| PrTally.TallyTotal | release/gen_release_notes.js:64-83 | the counts add up to the number of pull requests |
| PrTally.Assign | release/gen_release_notes.js:95 | assigning past the end of a JavaScript array lengthens it, leaves holes before the new index, and keeps the rest |
| PrTally.Bucket | release/gen_release_notes.js:90-96 | the logins with a given count, in the order `for (var author in authors)` visits them |
| PrTally.MaxCount | release/gen_release_notes.js:89-97 | the largest count of an author, which fixes the length of `byCommits` |
| PrTally.Grouped | release/gen_release_notes.js:89-97 | the array has one slot per count up to the largest |
| PrTally.ByCommits | release/gen_release_notes.js:89-97 | `byCommits` for the pull requests of a list: the grouping of their tally |
| PrTally.BucketMembers | release/gen_release_notes.js:90-96 | a login is under count c exactly when it is an author with count c |
| PrTally.MaxCountBounds | release/gen_release_notes.js:89-97 | no author's count exceeds the largest count |
| PrTally.BucketBeyond | release/gen_release_notes.js:89-97 | no login sits beyond the largest count |
| PrTally.GroupStep | release/gen_release_notes.js:91-96 | one more author is pushed onto its count's list, or starts it with a one-element array |
| PrTally.GroupByCount | release/gen_release_notes.js:89-97 | the grouping loop builds exactly the array that lists, at each count, the authors with that count, with holes elsewhere |
| PrTally.BucketFirst | release/gen_release_notes.js:90-96 | the logins under one count keep the order in which the authors are listed |
| PrTally.TallyBuckets | release/gen_release_notes.js:74-97 | after the grouping, a login is listed under count c exactly when it submitted exactly c pull requests |
| PrTally.ByCommitsEmpty | release/gen_release_notes.js:89-97 | the array is empty exactly when there were no pull requests |
| PrTally.ByCommitsOrdered | release/gen_release_notes.js:89-101 | there is no line for count 0, and the logins under one count are in order of their first pull request |
| PrTally.Label | release/gen_release_notes.js:99 | ` PR: ` for a count of 1, ` PRs: ` for any other |
| PrTally.CountLine | release/gen_release_notes.js:100 | the line for one count: the count, its label, the logins joined with `, `, and `\n<br>` |
| PrTally.CountLines | release/gen_release_notes.js:98-101 | the lines for the assigned indices of `byCommits`, in ascending order, skipping holes |
| PrTally.CountLineLabel | release/gen_release_notes.js:99-100 | a count line reads back: digits that decode to the count, then ` PR: ` exactly when the count is 1, then the comma-joined logins and `\n<br>` |
| PrTally.CountLinesEmpty | release/gen_release_notes.js:98-101 | the header gets no count line exactly when every index of `byCommits` is a hole |
| PrTally.CountLinesNext | release/gen_release_notes.js:98-101 | one more index appends its line when assigned, and nothing for a hole |
| PrTally.AppendCountLines | release/gen_release_notes.js:98-101 | the loop appends one line per assigned index, in ascending order, with the count, ` PR: ` or ` PRs: ` and the comma-joined logins |
| PrNotes.PrQuery | release/gen_release_notes.js:108-109 | the first URL: closed pull requests of google/blockly between the two dates, 100 per page |
| PrNotes.Submitted | release/gen_release_notes.js:72 | the first header line: the first page's `total_count` and ` PRs submitted:\n<br>` |
| PrNotes.PrPage | release/gen_release_notes.js:98-103 | the written text: the first line, the count lines of the tally of all items, a blank line, then the entry of every pull request |
| PrNotes.PrNotesText | release/gen_release_notes.js:67-106 | the `pull-requests` text: the page of all consumed items, with the first page's total, when the exchange ends on a page without `next`, and nothing otherwise |
| PrNotes.PagesTally | release/gen_release_notes.js:74-83 | the `authors` tally the handler has after n pages, page after page |
| PrNotes.Rendering | release/gen_release_notes.js:98-103 | the text the handler writes after n pages, built from its accumulated tally and list |
| PrNotes.PagesTallyItems | release/gen_release_notes.js:64-83 | the tally kept across pages is the tally of all items of those pages |
| PrNotes.PagesTallyCounted | release/gen_release_notes.js:90-91 | every author the tally lists has a count |
| PrNotes.RenderingPage | release/gen_release_notes.js:98-103 | the text the handler builds page by page is the total line, the count lines of all items, a blank line and all entries |
| PrNotes.TallyNextItem | release/gen_release_notes.js:78-82 | one more pull request counts once more for its author |
| PrNotes.AddItems | release/gen_release_notes.js:74-83 | the item loop appends the entries of the page and counts each pull request for its author |
| PrNotes.RenderPrs | release/gen_release_notes.js:89-103 | after the last page, the text written is the header from the first page, one line per count, a blank line, then the list |
| PrNotes.PrHandler | release/gen_release_notes.js:65-106 | the handler requests exactly the URLs of `Run`; it writes the rendered page after the last page, and nothing when the exchange stalls, throws or is waiting |
| PrNotes.GenPrNotes | release/gen_release_notes.js:62-112 | the requests are the pull-request query, then the followed `next` URLs; the text is that of `PrNotesText` |
| MergeDate.DatePart | release/gen_release_notes.js:122 | `s.split('T')[0]`: the first piece of the split at `T` |
| MergeDate.MergeQuery | release/gen_release_notes.js:130-131 | the merge query: closed pull requests against master, closed between the date parts of the two timestamps |
| MergeDate.DatePartPrefix | release/gen_release_notes.js:122 | `split('T')[0]` is the longest prefix without a `T`: a prefix, free of `T`, and all of the string or followed by a `T` |
| MergeDate.DatePartUnique | release/gen_release_notes.js:122 | any prefix with those properties is the date part |
| MergeDate.DatePartOf | release/gen_release_notes.js:122 | the date part of `date + "T" + time` is `date` |
| MergeDate.DatePartNoT | release/gen_release_notes.js:127-129 | a string without `T` is its own date part |
| MergeDate.DatePartIdempotent | release/gen_release_notes.js:122-129 | taking the date part twice changes nothing |
| MergeDate.MergeQueryDates | release/gen_release_notes.js:126-131 | for ISO timestamps, the merge query names their calendar dates |
| MergeDate.LastMergeDate | release/gen_release_notes.js:118-124 | the field is unchanged exactly on a status other than 200; an empty result throws; otherwise the date is the `T`-free prefix of the first item's `closed_at` |
| ReleaseNotes.GenReleaseNotes | release/gen_release_notes.js:29-32 | the two halves request and write independently, each exactly as its own function |

## Left out

- The XMLHttpRequest objects, `send`, `readyState` changes before 4, and
  response order across the two requests. The network is replaced by the
  sequence of finished responses to each request object.
- `JSON.parse` of the body and missing fields. A body is the already
  parsed `total_count` and `items`, and every item has a title, a
  non-negative integer number, a `closed_at` string and a login. A
  missing `items` or a `null` `closed_at` would throw in the script; the
  model has no such bodies.
- The writes to `document.getElementById(…)`. A handler returns the text
  it would assign to `innerHTML` or `value`.
- `getLastMergeDate`'s clock and date arithmetic: `new Date()`,
  `setTime` with `3 * MONTH_IN_MS`, and `toISOString`. The two ISO
  timestamps are parameters of `MergeQuery`.
- `links` and `authors` are JavaScript objects (an `Array` for
  `authors`). The model treats a relation or a login as a plain map key.
  It ignores keys that collide with inherited properties, such as
  `__proto__`, `length`, `constructor` and `push`.
- `for (var author in authors)` visits integer-like keys (a login such as
  `1234`) in ascending numeric order before the others. The model visits
  all logins in insertion order.
- JavaScript's rendering of numbers beyond non-negative integers
  (negative, fractional or exponent forms) is not modelled: issue
  numbers, counts and totals are `nat`.
