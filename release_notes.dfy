/**
 * `genBlocklyReleaseNotes`: the issue notes and the pull-request notes
 * for one date range. Each half has its own request object, so each
 * sees the responses to its own requests only.
 */
module ReleaseNotes {
  import opened Optional
  import opened Pagination
  import opened IssueNotes
  import opened PrNotes

  /** The document elements the script writes. */
  datatype Notes = Notes(issues: Option<string>, pullRequests: Option<string>)

  method GenReleaseNotes(startDate: string, endDate: string, issueResponses: seq<Response>, prResponses: seq<Response>)
    returns (issueRequests: seq<string>, prRequests: seq<string>, notes: Notes)
    ensures issueRequests == [IssueQuery(startDate, endDate)] + Drive(issueResponses).followed
    ensures prRequests == [PrQuery(startDate, endDate)] + Drive(prResponses).followed
    ensures notes == Notes(IssueList(issueResponses), PrNotesText(prResponses))
  {
    var issues, prs;
    issueRequests, issues := GenIssueNotes(startDate, endDate, issueResponses);
    prRequests, prs := GenPrNotes(startDate, endDate, prResponses);
    notes := Notes(issues, prs);
  }
}
