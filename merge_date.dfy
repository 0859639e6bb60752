/**
 * `getLastMergeDate`: the start date field is filled with the closing
 * date of the first result of a search for closed pull requests against
 * master (the function's name says it means the last merge; the query
 * neither restricts to merged pull requests nor sorts). The clock
 * and the date arithmetic are left to the caller, who passes the two
 * ISO timestamps the query is built from.
 */
module MergeDate {
  import opened JsString
  import opened Pagination

  /** `s.split('T')[0]`: the calendar date of an ISO timestamp. */
  function DatePart(s: string): string {
    Split(s, 'T')[0]
  }

  /**
   * The date part is the longest prefix without a 'T': it is a prefix,
   * it holds no 'T', and it is either all of `s` or followed by a 'T'.
   */
  lemma DatePartPrefix(s: string)
    ensures DatePart(s) <= s && 'T' !in DatePart(s)
    ensures |DatePart(s)| < |s| ==> s[|DatePart(s)|] == 'T'
  {
    var parts := Split(s, 'T');
    JoinSplit(s, 'T');
    JoinHead(parts, "T");
    if |parts| == 1 {
      assert Join(parts, "T") == parts[0];
    }
  }

  /** Those three facts determine the date part. */
  lemma DatePartUnique(s: string, d: string)
    requires d <= s && 'T' !in d
    requires |d| < |s| ==> s[|d|] == 'T'
    ensures d == DatePart(s)
  {
    if |d| < |s| {
      assert s == d + "T" + s[|d| + 1..];
      DatePartOf(d, s[|d| + 1..]);
    } else {
      assert d == s;
      DatePartNoT(s);
    }
  }

  /** The date part of `date` + 'T' + `time` is `date`, whatever `time` holds. */
  lemma DatePartOf(date: string, time: string)
    requires 'T' !in date
    ensures DatePart(date + "T" + time) == date
  {
    SplitAtSeparator(date, 'T', time);
    assert date + "T" + time == date + ['T'] + time;
  }

  /** A string without 'T' is its own date part. */
  lemma DatePartNoT(s: string)
    requires 'T' !in s
    ensures DatePart(s) == s
  {
    SplitNoSeparator(s, 'T');
  }

  /** Taking the date part twice changes nothing. */
  lemma DatePartIdempotent(s: string)
    ensures DatePart(DatePart(s)) == DatePart(s)
  {
    DatePartPrefix(s);
    DatePartNoT(DatePart(s));
  }

  /** Closed pull requests against master, closed between the dates of the two timestamps. */
  function MergeQuery(startIso: string, endIso: string): string {
    "https://api.github.com/search/issues?q=repo:google/blockly+is:pr+base:master+closed:"
      + DatePart(startIso) + ".." + DatePart(endIso)
  }

  /** For ISO timestamps the query names their calendar dates. */
  lemma MergeQueryDates(startDate: string, startTime: string, endDate: string, endTime: string)
    requires 'T' !in startDate && 'T' !in endDate
    ensures MergeQuery(startDate + "T" + startTime, endDate + "T" + endTime)
      == "https://api.github.com/search/issues?q=repo:google/blockly+is:pr+base:master+closed:"
        + startDate + ".." + endDate
  {
    DatePartOf(startDate, startTime);
    DatePartOf(endDate, endTime);
  }

  /** What the handler does with a finished response. */
  datatype MergeOutcome =
    | Unchanged           // a status other than 200: the field keeps its value
    | TypeError           // the search found nothing, so `items[0]` is undefined
    | SetStart(date: string) // the field is set to this date

  /**
   * The handler: on status 200 the first search result gives the date.
   */
  function LastMergeDate(r: Response): (o: MergeOutcome)
    ensures o == Unchanged <==> r.status != 200
    ensures o == TypeError <==> r.status == 200 && r.body.items == []
    ensures o.SetStart? ==> o.date <= r.body.items[0].closedAt && 'T' !in o.date
    ensures o.SetStart? && |o.date| < |r.body.items[0].closedAt| ==> r.body.items[0].closedAt[|o.date|] == 'T'
  {
    if r.status != 200 then Unchanged
    else if r.body.items == [] then TypeError
    else
      DatePartPrefix(r.body.items[0].closedAt);
      SetStart(DatePart(r.body.items[0].closedAt))
  }
}
