/** The request router of `handle_client`: an ordered, first-match-wins test of
    the received bytes against three literal prefixes. */
module Router {
  import opened Bytes

  const StatsPrefix: Bytes := "GET /stats"
  const StaticPrefix: Bytes := "GET /static/"
  const CalcPrefix: Bytes := "GET /calc?"

  /** The writer a request is handed to, with the argument it receives. */
  datatype Route =
    | Stats
    | Static(path: Bytes)   // buffer + 5: the request from "static/" on
    | Calc(query: Bytes)    // buffer + 10: the request after "GET /calc?"
    | NotFound

  /** `strncmp(buffer, lit, |lit|) == 0` on the NUL-terminated receive buffer. The
      literals hold no NUL, so the comparison succeeds exactly when the received
      bytes begin with the literal; a shorter request meets the terminator first
      and fails. */
  predicate Matches(request: Bytes, lit: Bytes)
  {
    StartsWith(request, lit)
  }

  /** The three prefixes are pairwise disjoint: no request starts with two of them. */
  lemma PrefixesDisjoint(request: Bytes)
    ensures !(Matches(request, StatsPrefix) && Matches(request, StaticPrefix))
    ensures !(Matches(request, StatsPrefix) && Matches(request, CalcPrefix))
    ensures !(Matches(request, StaticPrefix) && Matches(request, CalcPrefix))
  {
    if Matches(request, StatsPrefix) {
      assert request[9] == StatsPrefix[9] == 's';
      assert request[5] == 's';
    }
    if Matches(request, StaticPrefix) {
      assert request[9] == StaticPrefix[9] == 'i';
      assert request[5] == 's';
    }
    if Matches(request, CalcPrefix) {
      assert request[5] == CalcPrefix[5] == 'c';
    }
  }

  /** The routing of `handle_client`. Tested in the order stats, static, calc; since
      the prefixes are disjoint, each route is taken exactly when its own prefix matches. */
  function Dispatch(request: Bytes): (r: Route)
    ensures r.Stats? <==> Matches(request, StatsPrefix)
    ensures r.Static? <==> Matches(request, StaticPrefix)
    ensures r.Calc? <==> Matches(request, CalcPrefix)
    ensures r.Static? ==> request == "GET /" + r.path && StartsWith(r.path, "static/")
    ensures r.Calc? ==> request == CalcPrefix + r.query
  {
    PrefixesDisjoint(request);
    if Matches(request, StatsPrefix) then Stats
    else if Matches(request, StaticPrefix) then
      assert request[..5] == StaticPrefix[..5] && request[5..][..7] == StaticPrefix[5..];
      Static(request[5..])
    else if Matches(request, CalcPrefix) then Calc(request[10..])
    else NotFound
  }
}
