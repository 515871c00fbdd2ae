/** What the error page does once the matches are known: redirect to a single
    match when so configured, list the matches otherwise, or leave the page
    alone when nothing matched. */
module RedirectPolicy {
  import opened CandidateMatcher
  import opened QuerySanitizer

  /** The status of the redirect `RedirectToPage` issues: 301 Moved Permanently. */
  const MovedPermanently := 301

  datatype Decision =
    | Redirect(url: string, status: int)
      /** the error page keeps its 404 status; the group lists are rendered
          into its content and the sanitised key is offered as a search query */
    | Present(grouped: map<string, seq<Candidate>>, searchQuery: string)
    | NoAction

  /** The decision for match set `m` found for page key `key`. */
  function Decide(m: MatchSet, redirectOnSingleMatch: bool, key: string): (d: Decision)
    // a redirect happens exactly when it is enabled and the match is unambiguous
    ensures d.Redirect? <==> redirectOnSingleMatch && (|m.exact| == 1 || (|m.exact| == 0 && |m.possible| == 1))
    // it is permanent and goes to the single exact match, or else to the single possible one
    ensures d.Redirect? ==>
              && d.status == MovedPermanently
              && (if |m.exact| == 1 then d.url == m.exact[0] else d.url == m.possible[0])
    // the page is left alone exactly when nothing matched
    ensures d.NoAction? <==> m.exact == [] && m.possible == []
    // otherwise every group list is shown with the search query
    ensures d.Present? ==> d.grouped == m.grouped && d.searchQuery == Sanitize(key)
  {
    var exactCount, possibleCount := |m.exact|, |m.possible|;
    if exactCount == 1 && redirectOnSingleMatch then Redirect(m.exact[0], MovedPermanently)
    else if exactCount == 0 && possibleCount == 1 && redirectOnSingleMatch then Redirect(m.possible[0], MovedPermanently)
    else if exactCount > 0 || possibleCount > 0 then Present(m.grouped, Sanitize(key))
    else NoAction
  }
}
