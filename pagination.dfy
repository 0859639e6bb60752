/**
 * What the issue and pull-request handlers have in common: a page of
 * search results, the requests that follow `next` links from page to
 * page, and the list entry written for each item.
 *
 * The network is replaced by the sequence of finished responses
 * (readyState 4) in the order they arrive: response k answers the k-th
 * request the handler made.
 */
module Pagination {
  import opened JsString
  import opened LinkHeader

  datatype User = User(login: string)

  /** One entry of a search result's `items`: the fields the script reads. */
  datatype Item = Item(title: string, number: nat, closedAt: string, user: User)

  /** The parsed JSON body of a search request. */
  datatype SearchPage = SearchPage(totalCount: nat, items: seq<Item>)

  /** A finished request: its HTTP status, its parsed body and its raw header block. */
  datatype Response = Response(status: int, body: SearchPage, headers: string)

  /** `if (links['next'])`: the relation is present and its URL is not the empty string. */
  predicate HasNext(links: map<string, string>) {
    "next" in links && links["next"] != ""
  }

  /** The empty-string half of the test never matters: a parsed URL is never empty. */
  lemma HasNextParsed(headers: string)
    requires ParseLinks(headers).Parsed?
    ensures HasNext(ParseLinks(headers).links) <==> "next" in ParseLinks(headers).links
  {
    ParsedNonEmpty(Tokens(headers));
  }

  /** What one response makes the handler do. */
  datatype Outcome =
    | Ignored            // a status other than 200: the handler does nothing
    | Failed             // `getLinks` threw inside the handler
    | Follow(url: string) // the page has a `next` link, which is requested
    | Final              // the page has no `next` link: the list is written into the document

  function OutcomeOf(r: Response): Outcome {
    if r.status != 200 then Ignored
    else match ParseLinks(r.headers)
      case Threw(_) => Failed
      case Parsed(links) => if HasNext(links) then Follow(links["next"]) else Final
  }

  /** A page ends the exchange exactly when its headers parse and have no `next` relation. */
  lemma OutcomeFinal(r: Response)
    ensures OutcomeOf(r) == Final
      <==> r.status == 200 && ParseLinks(r.headers).Parsed? && "next" !in ParseLinks(r.headers).links
    ensures OutcomeOf(r).Follow?
      <==> r.status == 200 && ParseLinks(r.headers).Parsed? && "next" in ParseLinks(r.headers).links
  {
    if r.status == 200 && ParseLinks(r.headers).Parsed? {
      HasNextParsed(r.headers);
    }
  }

  function Outcomes(rs: seq<Response>): (os: seq<Outcome>)
    ensures |os| == |rs|
  {
    seq(|rs|, i requires 0 <= i < |rs| => OutcomeOf(rs[i]))
  }

  /** How the handler stops. */
  datatype Stop =
    | Rendered   // the list was written
    | Stalled    // a response was ignored, and no request follows it
    | Raised     // `getLinks` threw: no request follows and nothing is written
    | Awaiting   // every response asked for another page, and that one has not arrived

  /** The responses the handler consumed, how it stopped, and the `next` URLs it requested. */
  datatype Trace = Trace(consumed: nat, stop: Stop, followed: seq<string>)

  /** The way an outcome other than `Follow` stops the handler. */
  function StopAt(o: Outcome): Stop
    requires !o.Follow?
  {
    match o
    case Ignored => Stalled
    case Failed => Raised
    case Final => Rendered
  }

  /** The handler from the k-th outcome on, after it has requested the URLs in `followed`. */
  function Run(os: seq<Outcome>, k: nat, followed: seq<string>): (t: Trace)
    requires k <= |os|
    ensures k <= t.consumed <= |os|
    ensures t.stop != Awaiting ==> k < t.consumed
    decreases |os| - k
  {
    if k == |os| then Trace(k, Awaiting, followed)
    else match os[k]
      case Follow(url) => Run(os, k + 1, followed + [url])
      case Ignored => Trace(k + 1, Stalled, followed)
      case Failed => Trace(k + 1, Raised, followed)
      case Final => Trace(k + 1, Rendered, followed)
  }

  /** The whole exchange, from the first response on. */
  function Drive(rs: seq<Response>): Trace {
    Run(Outcomes(rs), 0, [])
  }

  /**
   * `os` holds the outcome of each response. The link between the two is
   * only drawn for a response whose outcome is mentioned, which keeps the
   * header parsing out of the proofs that do not look at it.
   */
  predicate Classifies(os: seq<Outcome>, rs: seq<Response>) {
    |os| == |rs| && forall i {:trigger OutcomeOf(rs[i])} :: 0 <= i < |rs| ==> os[i] == OutcomeOf(rs[i])
  }

  /**
   * The end of the handler for a page that arrived with status 200: parse
   * the `link` header and look for a `next` URL; `getLinks` throwing
   * leaves the handler.
   */
  method PageOutcome(rs: seq<Response>, k: nat, ghost os: seq<Outcome>) returns (o: Outcome)
    requires Classifies(os, rs) && k < |rs| && rs[k].status == 200
    ensures o == os[k] && o != Ignored
  {
    var links := GetLinks(rs[k].headers);
    assert os[k] == OutcomeOf(rs[k]);
    match links
    case Threw(_) =>
      o := Failed;
    case Parsed(m) =>
      o := if HasNext(m) then Follow(m["next"]) else Final;
  }

  /** The number of responses in a trace that asked for another page. */
  function Continued(t: Trace): int {
    if t.stop == Awaiting then t.consumed else t.consumed - 1
  }

  /**
   * From the k-th outcome on, the handler requests the URL of every
   * `Follow` until the first outcome that is not one; that one decides how
   * it stops, and without one it waits for the response after the last.
   */
  lemma {:induction false} RunSteps(os: seq<Outcome>, k: nat, followed: seq<string>)
    requires k <= |os|
    ensures var t := Run(os, k, followed);
      k <= Continued(t) && t.consumed <= |os|
      && |t.followed| == |followed| + Continued(t) - k
      && t.followed[..|followed|] == followed
      && (forall i :: k <= i < Continued(t) ==> os[i].Follow? && t.followed[|followed| + i - k] == os[i].url)
      && (t.stop == Awaiting ==> t.consumed == |os|)
      && (t.stop != Awaiting ==> !os[t.consumed - 1].Follow? && t.stop == StopAt(os[t.consumed - 1]))
    decreases |os| - k
  {
    if k < |os| && os[k].Follow? {
      var next := followed + [os[k].url];
      RunSteps(os, k + 1, next);
      var t := Run(os, k + 1, next);
      assert t.followed[..|followed|] == next[..|followed|];
    }
  }

  /**
   * The handler requests exactly the `next` URLs of the responses that
   * ask for one, in order; it stops at the first response that does not,
   * and that response decides how.
   */
  lemma DriveSteps(rs: seq<Response>)
    ensures var t := Drive(rs); var os := Outcomes(rs);
      0 <= Continued(t) && t.consumed <= |rs| && |t.followed| == Continued(t)
      && (forall i :: 0 <= i < Continued(t) ==> os[i].Follow? && t.followed[i] == os[i].url)
      && (t.stop == Awaiting ==> t.consumed == |rs|)
      && (t.stop != Awaiting ==> !os[t.consumed - 1].Follow? && t.stop == StopAt(os[t.consumed - 1]))
  {
    RunSteps(Outcomes(rs), 0, []);
  }

  /**
   * The list is written after the n-th response exactly when every earlier
   * response asked for another page and the n-th one did not have a `next` link.
   */
  lemma DriveRendered(rs: seq<Response>, n: nat)
    ensures var os := Outcomes(rs);
      Drive(rs).stop == Rendered && Drive(rs).consumed == n
      <==> 1 <= n <= |rs| && (forall i :: 0 <= i < n - 1 ==> os[i].Follow?) && os[n - 1] == Final
  {
    DriveSteps(rs);
  }

  /** The handler is still waiting exactly when every response so far asked for another page. */
  lemma DriveAwaiting(rs: seq<Response>)
    ensures var os := Outcomes(rs);
      Drive(rs).stop == Awaiting <==> forall i :: 0 <= i < |rs| ==> os[i].Follow?
  {
    DriveSteps(rs);
  }

  /** The list entry for one item: its title and a link to it. */
  function ItemLine(base: string, item: Item): string {
    item.title + " (" + base + NatToString(item.number) + ")\n<br>"
  }

  /** Two items with the same title but different numbers get different entries. */
  lemma ItemLineDistinct(base: string, x: Item, y: Item)
    requires x.title == y.title && x.number != y.number
    ensures ItemLine(base, x) != ItemLine(base, y)
  {
    var head := x.title + " (";
    Pieces(head, base, NatToString(x.number), ")\n<br>");
    Pieces(head, base, NatToString(y.number), ")\n<br>");
    if ItemLine(base, x) == ItemLine(base, y) {
      NatToStringInjective(x.number, y.number);
    }
  }

  /** The number in an entry reads back as the item's number. */
  lemma ItemLineNumber(base: string, item: Item)
    ensures var line := ItemLine(base, item);
      |item.title| + 2 + |base| <= |line| - 6
      && line[..|item.title| + 2 + |base|] == item.title + " (" + base
      && line[|line| - 6..] == ")\n<br>"
      && var digits := line[|item.title| + 2 + |base|..|line| - 6];
        (forall i :: 0 <= i < |digits| ==> '0' <= digits[i] <= '9') && DecimalValue(digits) == item.number
  {
    var line := ItemLine(base, item);
    var head := item.title + " (" + base;
    var digits := NatToString(item.number);
    assert line == head + digits + ")\n<br>";
    assert line[|head|..|line| - 6] == digits;
    DecimalRoundTrip(item.number);
  }

  /** The entries for a list of items, in order. */
  function Lines(base: string, items: seq<Item>): string {
    if items == [] then "" else Lines(base, items[..|items| - 1]) + ItemLine(base, items[|items| - 1])
  }

  /** The entries of two lists one after the other are the entries of the joined list. */
  lemma {:induction false} LinesAppend(base: string, a: seq<Item>, b: seq<Item>)
    ensures Lines(base, a + b) == Lines(base, a) + Lines(base, b)
    decreases |b|
  {
    if b != [] {
      var b' := b[..|b| - 1];
      LinesAppend(base, a, b');
      var ab := a + b;
      assert ab[..|ab| - 1] == a + b';
      assert ab[|ab| - 1] == b[|b| - 1];
      assert Lines(base, ab) == Lines(base, a + b') + ItemLine(base, b[|b| - 1]);
    } else {
      assert a + b == a;
    }
  }

  /** The items of a sequence of responses, page after page. */
  function Items(rs: seq<Response>): seq<Item> {
    if rs == [] then [] else Items(rs[..|rs| - 1]) + rs[|rs| - 1].body.items
  }

  /** The entries for the first k + 1 pages: those for the first k, then those of page k. */
  lemma LinesNextPage(base: string, rs: seq<Response>, k: nat)
    requires k < |rs|
    ensures Items(rs[..k + 1]) == Items(rs[..k]) + rs[k].body.items
    ensures Lines(base, Items(rs[..k + 1])) == Lines(base, Items(rs[..k])) + Lines(base, rs[k].body.items)
  {
    assert rs[..k + 1][..k] == rs[..k];
    LinesAppend(base, Items(rs[..k]), rs[k].body.items);
  }

  /** One more item adds its entry at the end. */
  lemma LinesNextItem(base: string, items: seq<Item>, i: nat)
    requires i < |items|
    ensures Lines(base, items[..i + 1]) == Lines(base, items[..i]) + ItemLine(base, items[i])
  {
    assert items[..i + 1][..i] == items[..i];
  }

  /** The entries of the first n pages, page after page, as the handler appends them. */
  function PagesText(base: string, rs: seq<Response>, n: nat): string
    requires n <= |rs|
  {
    if n == 0 then "" else PagesText(base, rs, n - 1) + Lines(base, rs[n - 1].body.items)
  }

  /** Appending page by page gives the entries of all the items of those pages. */
  lemma {:induction false} PagesTextLines(base: string, rs: seq<Response>, n: nat)
    requires n <= |rs|
    ensures PagesText(base, rs, n) == Lines(base, Items(rs[..n]))
  {
    if n > 0 {
      PagesTextLines(base, rs, n - 1);
      LinesNextPage(base, rs, n - 1);
    }
  }
}
