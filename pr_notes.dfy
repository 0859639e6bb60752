/**
 * The pull-request half of the release notes: the same paging as for
 * issues, and besides the list of entries a header with the number of
 * pull requests and, per count, the logins that submitted that many.
 */
module PrNotes {
  import opened Optional
  import opened JsString
  import opened Pagination
  import opened PrTally

  const PullBase := "https://github.com/google/blockly/pull/"

  /** The first request: pull requests of google/blockly closed in the date range, 100 per page. */
  function PrQuery(startDate: string, endDate: string): string {
    "https://api.github.com/search/issues?q=repo:google/blockly+is:pr+closed:"
      + startDate + ".." + endDate + "&per_page=100"
  }

  /** The first line of the header, from the `total_count` of a page. */
  function Submitted(totalCount: nat): string {
    NatToString(totalCount) + " PRs submitted:\n<br>"
  }

  /**
   * What is written into the `pull-requests` element once the pages
   * holding `items` are in: the total count of the first page, the line
   * per count, a blank line, then the entry of every pull request.
   */
  function PrPage(totalCount: nat, items: seq<Item>): string {
    Submitted(totalCount) + CountLines(ByCommits(items)) + "\n<br>" + Lines(PullBase, items)
  }

  /** What ends up in the `pull-requests` element, if anything. */
  function PrNotesText(rs: seq<Response>): Option<string> {
    var t := Drive(rs);
    if t.stop == Rendered then Some(PrPage(rs[0].body.totalCount, Items(rs[..t.consumed]))) else None
  }

  /** The tally after the first n pages, page after page, as the handler keeps it. */
  function PagesTally(rs: seq<Response>, n: nat): Authors
    requires n <= |rs|
  {
    if n == 0 then NoAuthors else TallyFrom(PagesTally(rs, n - 1), rs[n - 1].body.items)
  }

  lemma {:induction false} PagesTallyItems(rs: seq<Response>, n: nat)
    requires n <= |rs|
    ensures PagesTally(rs, n) == Tally(Items(rs[..n]))
  {
    if n > 0 {
      PagesTallyItems(rs, n - 1);
      LinesNextPage(PullBase, rs, n - 1);
      TallyFromAppend(NoAuthors, Items(rs[..n - 1]), rs[n - 1].body.items);
    }
  }

  /** Every login the tally lists has a count. */
  lemma PagesTallyCounted(rs: seq<Response>, n: nat)
    requires n <= |rs|
    ensures forall i :: 0 <= i < |PagesTally(rs, n).order| ==> PagesTally(rs, n).order[i] in PagesTally(rs, n).count
  {
    PagesTallyItems(rs, n);
    TallyLogins(Items(rs[..n]));
  }

  /** The page as the handler builds it, from the first n pages. */
  function Rendering(rs: seq<Response>, n: nat): string
    requires 1 <= n <= |rs|
  {
    var a := PagesTally(rs, n);
    Submitted(rs[0].body.totalCount) + CountLines(Grouped(a.order, a.count)) + "\n<br>" + PagesText(PullBase, rs, n)
  }

  lemma RenderingPage(rs: seq<Response>, n: nat)
    requires 1 <= n <= |rs|
    ensures Rendering(rs, n) == PrPage(rs[0].body.totalCount, Items(rs[..n]))
  {
    PagesTallyItems(rs, n);
    PagesTextLines(PullBase, rs, n);
  }

  lemma TallyNextItem(a: Authors, items: seq<Item>, i: nat)
    requires i < |items|
    ensures TallyFrom(a, items[..i + 1]) == Record(TallyFrom(a, items[..i]), items[i].user.login)
  {
    assert items[..i + 1][..i] == items[..i];
  }

  /** The loop over a page's items: each adds its entry and counts for its author. */
  method AddItems(list: string, authors: Authors, items: seq<Item>) returns (list': string, authors': Authors)
    ensures list' == list + Lines(PullBase, items)
    ensures authors' == TallyFrom(authors, items)
  {
    list', authors' := list, authors;
    for i := 0 to |items|
      invariant list' == list + Lines(PullBase, items[..i])
      invariant authors' == TallyFrom(authors, items[..i])
    {
      LinesNextItem(PullBase, items, i);
      AppendAssoc(list, Lines(PullBase, items[..i]), ItemLine(PullBase, items[i]));
      TallyNextItem(authors, items, i);
      list' := list' + ItemLine(PullBase, items[i]);
      authors' := Record(authors', items[i].user.login);
    }
    assert items[..|items|] == items;
  }

  /** The last page is in: the header with the line per count, a blank line, then the list. */
  method RenderPrs(rs: seq<Response>, n: nat, prHeader: string, prList: string, authors: Authors) returns (text: string)
    requires 1 <= n <= |rs|
    requires prHeader == Submitted(rs[0].body.totalCount)
    requires prList == PagesText(PullBase, rs, n)
    requires authors == PagesTally(rs, n)
    ensures text == Rendering(rs, n)
  {
    PagesTallyCounted(rs, n);
    var byCommits := GroupByCount(authors);
    var header := AppendCountLines(prHeader, byCommits);
    header := header + "\n<br>";
    text := header + prList;
  }

  /**
   * The `onreadystatechange` handler, run against the responses in the
   * order they arrive; `os` are their outcomes. It returns the `next` URLs
   * it opened and what it wrote into the document, if anything.
   */
  method PrHandler(rs: seq<Response>, ghost os: seq<Outcome>) returns (followed: seq<string>, prs: Option<string>)
    requires Classifies(os, rs)
    ensures followed == Run(os, 0, []).followed
    ensures prs == if Run(os, 0, []).stop == Rendered then Some(Rendering(rs, Run(os, 0, []).consumed)) else None
  {
    var authors := NoAuthors;
    var prHeader: Option<string> := None;
    var prList := "";
    followed, prs := [], None;
    var k := 0;
    while k < |rs|
      invariant k <= |rs|
      invariant Run(os, k, followed) == Run(os, 0, [])
      invariant prHeader == if k == 0 then None else Some(Submitted(rs[0].body.totalCount))
      invariant prList == PagesText(PullBase, rs, k)
      invariant authors == PagesTally(rs, k)
      decreases |rs| - k
    {
      var response := rs[k];
      if response.status != 200 {
        assert OutcomeOf(rs[k]) == Ignored;
        return;
      }
      if prHeader == None {
        prHeader := Some(Submitted(response.body.totalCount));
      }
      prList, authors := AddItems(prList, authors, response.body.items);
      assert prList == PagesText(PullBase, rs, k + 1);
      assert authors == PagesTally(rs, k + 1);
      var o := PageOutcome(rs, k, os);
      if o.Follow? {
        followed := followed + [o.url];
        k := k + 1;
      } else if o == Final {
        var text := RenderPrs(rs, k + 1, prHeader.value, prList, authors);
        prs := Some(text);
        return;
      } else {
        // `getLinks` threw.
        return;
      }
    }
  }

  /**
   * `genBlocklyPrNotes`: open the search query, then let the handler
   * follow the pages. `requests` are the URLs opened, in order.
   */
  method GenPrNotes(startDate: string, endDate: string, responses: seq<Response>)
    returns (requests: seq<string>, prs: Option<string>)
    ensures requests == [PrQuery(startDate, endDate)] + Drive(responses).followed
    ensures prs == PrNotesText(responses)
  {
    var query := PrQuery(startDate, endDate);
    var followed;
    followed, prs := PrHandler(responses, Outcomes(responses));
    requests := [query] + followed;
    var t := Drive(responses);
    if t.stop == Rendered {
      RenderingPage(responses, t.consumed);
    }
  }
}
