/** perform_search: the query is stripped and lower-cased, then matched
    against the lower-cased case id, phone number and email of every stored
    row, as a shell pattern over the whole field when it holds a `*` and as
    a substring otherwise; matching rows come back in store order. */
module Query {
  import opened Text
  import opened Glob
  import opened Filter
  import opened Cases

  /** The query as it is matched: stripped, then lower-cased. */
  function Normalize(raw: string): string {
    Lower(Trim(raw))
  }

  /** fnmatch's bracket classes are not part of the model: a wildcard query
      must not hold a `[`. */
  predicate Supported(raw: string) {
    '*' in Normalize(raw) ==> '[' !in Normalize(raw)
  }

  /** One field against the normalised query q. */
  function FieldMatches(q: string, field: string): bool {
    if '*' in q then GlobMatch(q, Lower(field)) else Contains(Lower(field), q)
  }

  /** A row matches when any of its three searched fields does. */
  function RowMatches(q: string, r: Row): bool {
    FieldMatches(q, r.caseId) || FieldMatches(q, r.phoneNumber) || FieldMatches(q, r.email)
  }

  function MatchTest(q: string): Row -> bool {
    r => RowMatches(q, r)
  }

  /** Matching ignores the case of the searched fields: rows whose case id,
      phone number and email differ only in case match the same queries,
      and queries that differ only in case are the same query. */
  lemma MatchIgnoresCase(q: string, r: Row, u: Row, raw: string, raw': string)
    requires Alike(r.caseId, u.caseId) && Alike(r.phoneNumber, u.phoneNumber) && Alike(r.email, u.email)
    requires Alike(raw, raw')
    ensures RowMatches(q, r) == RowMatches(q, u)
    ensures Normalize(raw) == Normalize(raw')
  {
    LowerSameIff(r.caseId, u.caseId);
    LowerSameIff(r.phoneNumber, u.phoneNumber);
    LowerSameIff(r.email, u.email);
    NormalizedAlike(raw, raw');
  }

  /** The rows a search for q returns. */
  function Hits(rows: seq<Row>, q: string): seq<Row> {
    Keep(rows, MatchTest(q))
  }

  /** An empty query is refused before any row is read. */
  datatype Outcome = EmptyQuery | Results(found: seq<Row>)

  /** perform_search over the stored rows (read from the CSV by the caller). */
  method Search(rows: seq<Row>, raw: string) returns (out: Outcome)
    requires Supported(raw)
    ensures out == EmptyQuery <==> Normalize(raw) == ""
    ensures out.Results? ==> out.found == Hits(rows, Normalize(raw))
  {
    var query := Lower(Trim(raw));
    if query == "" {
      return EmptyQuery;
    }
    var results: seq<Row> := [];
    for i := 0 to |rows|
      invariant results == Hits(rows[..i], query)
    {
      var row := rows[i];
      assert rows[..i + 1] == rows[..i] + [row];
      KeepSnoc(rows[..i], row, MatchTest(query));
      if '*' in query {
        if GlobMatch(query, Lower(row.caseId)) ||
           GlobMatch(query, Lower(row.phoneNumber)) ||
           GlobMatch(query, Lower(row.email)) {
          results := results + [row];
        }
      } else {
        if Contains(Lower(row.caseId), query) ||
           Contains(Lower(row.phoneNumber), query) ||
           Contains(Lower(row.email), query) {
          results := results + [row];
        }
      }
    }
    assert rows[..|rows|] == rows;
    return Results(results);
  }

  /** Without a `*`, a row is found exactly when the query is a substring of
      its lower-cased case id, phone number or email. */
  lemma SubstringSearch(q: string, r: Row)
    requires '*' !in q
    ensures RowMatches(q, r) <==>
      IsSubstring(q, Lower(r.caseId)) || IsSubstring(q, Lower(r.phoneNumber)) || IsSubstring(q, Lower(r.email))
  {
    ContainsIff(Lower(r.caseId), q);
    ContainsIff(Lower(r.phoneNumber), q);
    ContainsIff(Lower(r.email), q);
  }

  /** The result of a search is the subsequence of the store made of the
      matching rows: each matching position appears once, in store order,
      and no other row appears. */
  lemma HitsInStoreOrder(rows: seq<Row>, q: string)
    ensures PicksOut(Hits(rows, q), rows, KeptIndices(rows, MatchTest(q)))
    ensures forall i :: 0 <= i < |rows| ==> (RowMatches(q, rows[i]) <==> i in KeptIndices(rows, MatchTest(q)))
    ensures forall r :: r in Hits(rows, q) <==> r in rows && RowMatches(q, r)
  {
    KeepSelects(rows, MatchTest(q));
    forall r
      ensures r in Hits(rows, q) <==> r in rows && RowMatches(q, r)
    {
      KeepMembers(rows, MatchTest(q), r);
    }
  }

  /** For a query q without wildcards, searching for `*q*` finds exactly the
      rows that searching for q finds. */
  lemma StarWrappedSearch(rows: seq<Row>, q: string)
    requires Literal(q)
    ensures Hits(rows, ['*'] + q + ['*']) == Hits(rows, q)
  {
    var p := ['*'] + q + ['*'];
    assert '*' in p && '*' !in q by {
      assert p[0] == '*';
    }
    forall i | 0 <= i < |rows|
      ensures MatchTest(p)(rows[i]) == MatchTest(q)(rows[i])
    {
      var r := rows[i];
      SubstringSearch(q, r);
      GlobSubstring(q, Lower(r.caseId));
      GlobSubstring(q, Lower(r.phoneNumber));
      GlobSubstring(q, Lower(r.email));
    }
    KeepSameTest(rows, MatchTest(p), MatchTest(q));
  }
}
