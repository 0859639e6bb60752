/**
 * The issue half of the release notes: one search request for the issues
 * closed between two dates, then one request per `next` link, and the
 * entries of every page written into the document when the last page
 * arrives.
 */
module IssueNotes {
  import opened Optional
  import opened JsString
  import opened Pagination

  const IssueBase := "https://github.com/google/blockly/issues/"

  /** The first request: issues of google/blockly closed in the date range, 100 per page. */
  function IssueQuery(startDate: string, endDate: string): string {
    "https://api.github.com/search/issues?q=repo:google/blockly+is:issue+closed:"
      + startDate + ".." + endDate + "&per_page=100"
  }

  /**
   * What ends up in the `issues` element: the entries of every page the
   * handler consumed, once a page without a `next` link arrives, and
   * nothing in every other case.
   */
  function IssueList(rs: seq<Response>): Option<string> {
    var t := Drive(rs);
    if t.stop == Rendered then Some(Lines(IssueBase, Items(rs[..t.consumed]))) else None
  }

  /**
   * Two pages, the first with a `next` link and the second without: the
   * handler requests that link and writes the entries of both pages, those
   * of the first page first.
   */
  lemma TwoPages(rs: seq<Response>)
    requires |rs| >= 2 && OutcomeOf(rs[0]).Follow? && OutcomeOf(rs[1]) == Final
    ensures Drive(rs).followed == [OutcomeOf(rs[0]).url]
    ensures IssueList(rs) == Some(Lines(IssueBase, rs[0].body.items) + Lines(IssueBase, rs[1].body.items))
  {
    var os := Outcomes(rs);
    assert os[0] == OutcomeOf(rs[0]) && os[1] == OutcomeOf(rs[1]);
    assert [] + [os[0].url] == [os[0].url];
    assert Run(os, 0, []) == Run(os, 1, [os[0].url]) == Trace(2, Rendered, [os[0].url]);
    assert Drive(rs) == Trace(2, Rendered, [os[0].url]);
    assert rs[..2][..1] == rs[..1] && rs[..1][..0] == [];
    assert Items(rs[..1]) == rs[0].body.items;
    LinesAppend(IssueBase, rs[0].body.items, rs[1].body.items);
  }

  /** The entries of `items` appended to `list`, one item at a time. */
  method AppendEntries(list: string, base: string, items: seq<Item>) returns (r: string)
    ensures r == list + Lines(base, items)
  {
    r := list;
    for i := 0 to |items|
      invariant r == list + Lines(base, items[..i])
    {
      LinesNextItem(base, items, i);
      AppendAssoc(list, Lines(base, items[..i]), ItemLine(base, items[i]));
      r := r + ItemLine(base, items[i]);
    }
    assert items[..|items|] == items;
  }

  /**
   * The `onreadystatechange` handler, run against the responses in the
   * order they arrive; `os` are their outcomes. It returns the `next` URLs
   * it opened and what it wrote into the document, if anything.
   */
  method IssueHandler(rs: seq<Response>, ghost os: seq<Outcome>) returns (followed: seq<string>, issues: Option<string>)
    requires Classifies(os, rs)
    ensures followed == Run(os, 0, []).followed
    ensures issues == if Run(os, 0, []).stop == Rendered
      then Some(Lines(IssueBase, Items(rs[..Run(os, 0, []).consumed]))) else None
  {
    var issuesList := "";
    followed, issues := [], None;
    var k := 0;
    while k < |rs|
      invariant k <= |rs|
      invariant Run(os, k, followed) == Run(os, 0, [])
      invariant issuesList == PagesText(IssueBase, rs, k)
      decreases |rs| - k
    {
      var response := rs[k];
      if response.status != 200 {
        assert OutcomeOf(rs[k]) == Ignored;
        return;
      }
      issuesList := AppendEntries(issuesList, IssueBase, response.body.items);
      var o := PageOutcome(rs, k, os);
      if o.Follow? {
        followed := followed + [o.url];
        k := k + 1;
      } else if o == Final {
        PagesTextLines(IssueBase, rs, k + 1);
        issues := Some(issuesList);
        return;
      } else {
        // `getLinks` threw.
        return;
      }
    }
  }

  /**
   * `genBlocklyIssueNotes`: open the search query, then let the handler
   * follow the pages. `requests` are the URLs opened, in order.
   */
  method GenIssueNotes(startDate: string, endDate: string, responses: seq<Response>)
    returns (requests: seq<string>, issues: Option<string>)
    ensures requests == [IssueQuery(startDate, endDate)] + Drive(responses).followed
    ensures issues == IssueList(responses)
  {
    var query := IssueQuery(startDate, endDate);
    var followed;
    followed, issues := IssueHandler(responses, Outcomes(responses));
    requests := [query] + followed;
  }
}
