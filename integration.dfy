/** How the page and the route fit together: the page loads its advocates
    from the route, and the two filter the same records in different ways. */
module Integration {
  import opened Wrappers
  import opened Text
  import opened Sequences
  import opened Paging
  import opened Advocates
  import ClientSearch
  import opened AdvocatesRoute

  /** The page's initial load: `fetch("/api/advocates")` with no query
      string, then `json.data`. The route answers with its first page only,
      so the page never holds more than six advocates. */
  method LoadAdvocates(table: seq<Advocate>) returns (loaded: seq<Advocate>)
    ensures loaded == table[..Min(PageSize, |table|)]
    ensures |table| > PageSize ==> |loaded| < |table|
  {
    var params := SearchParams(None, None, None, None);
    var r := Get(table, params, false);
    NoFiltersMatchEverything(table, params);
    loaded := r.data;
  }

  /** The request for one page ignores the page number when matching. */
  lemma MatchingIgnoresPage(table: seq<Advocate>, p: SearchParams, page: int)
    ensures Matching(table, p.(page := Some(page))) == Matching(table, p)
  {
    var q := p.(page := Some(page));
    FilterCongruent(table, row => RowMatches(q, row), row => RowMatches(p, row));
  }

  /** Requests pages 1, 2, ... of a query until every matching row has
      arrived: the rows come back exactly once each, in table order, after
      as many requests as the query has pages (one when nothing matches). */
  method FetchAllPages(table: seq<Advocate>, params: SearchParams) returns (all: seq<Advocate>, requests: nat)
    ensures all == Matching(table, params)
    ensures requests == Max(1, PageCount(|all|))
  {
    ghost var m := Matching(table, params);
    MatchingIgnoresPage(table, params, 1);
    var first := Get(table, params.(page := Some(1)), false);
    all := first.data;
    var total := first.total;
    requests := 1;
    assert all == m[..Min(PageSize, |m|)];
    while |all| < total
      invariant requests >= 1 && total == |m|
      invariant all == m[..Min(requests * PageSize, |m|)]
      invariant requests == 1 || (requests - 1) * PageSize < total
      decreases total - |all|
    {
      MatchingIgnoresPage(table, params, requests + 1);
      var r := Get(table, params.(page := Some(requests + 1)), false);
      assert |all| == requests * PageSize;
      assert Offset(requests + 1) == |all|;
      assert all + r.data == m[..Min((requests + 1) * PageSize, |m|)];
      all := all + r.data;
      requests := requests + 1;
    }
    assert all == m;
  }

  /** The page's load as it is evidently meant to be: every advocate. */
  method LoadAllAdvocates(table: seq<Advocate>) returns (loaded: seq<Advocate>)
    ensures loaded == table
  {
    var params := SearchParams(None, None, None, None);
    NoFiltersMatchEverything(table, params);
    var requests;
    loaded, requests := FetchAllPages(table, params);
  }

  /** The route's query string for the page's inputs: the term and both
      dropdowns as they stand. */
  function ParamsFor(q: ClientSearch.Query): SearchParams {
    SearchParams(None, Some(q.searchTerm), Some(q.selectedCity), Some(q.selectedSpecialty))
  }

  /** An advocate the page keeps for a city and a specialty is matched by the
      route as well: exact membership of the specialty implies the route's
      substring clause. */
  lemma PageSelectionWithinRoute(a: Advocate, city: string, specialty: string)
    requires ClientSearch.Matches(ClientSearch.Query("", city, specialty), a)
    ensures RowMatches(ParamsFor(ClientSearch.Query("", city, specialty)), a)
  {
    if Selects(Some(specialty)) {
      MemberPassesSpecialtyClause(a, specialty);
    }
  }

  /** The route's specialty clause lets through rows the page's
      exact-membership stage drops. */
  lemma SpecialtySemanticsDiffer()
    ensures var a := Advocate("Ann", "Lee", "Reno", "MD", ["ab"], 3, "5550100");
            var q := ClientSearch.Query("", All, "b");
            RowMatches(ParamsFor(q), a) && !ClientSearch.Matches(q, a)
  {
    SpecialtyClauseOverMatches();
  }

  /** The page searches the degree; the route does not. */
  lemma DegreeSearchedOnlyByPage()
    ensures var a := Advocate("A", "B", "C", "MD", [], 3, "5");
            ClientSearch.TextMatches(a, "md") && !Holds(TextClause("md"), a)
  {
    var a := Advocate("A", "B", "C", "MD", [], 3, "5");
    assert Lower("MD") == "md";
    assert Includes(Lower("MD"), Lower("md")) by {
      assert Lower("md") == "md";
      assert OccursAt("md", "md", 0);
    }
    assert "MD" in ClientSearch.SearchableValues(a);
    assert SpecialtiesText([]) == "[]";
    assert Lower("[]") == "[]";
    assert !Includes("[]", "md") by {
      assert "[]"[..2][0] != "md"[0];
      assert !Includes("[]"[1..], "md");
    }
    assert SqlPattern.NoWildcards("md");
    TextClauseIff("md", a);
  }

  /** The route trims the term and the page does not: a lone space
      filters nothing on the route but keeps only advocates with a space in
      a searchable value on the page. */
  lemma BlankTermDiffers(a: Advocate)
    ensures RowMatches(ParamsFor(ClientSearch.Query(" ", All, All)), a)
    ensures ClientSearch.Matches(ClientSearch.Query(" ", All, All), a) <==>
              ClientSearch.TextMatches(a, " ")
  {
    assert AllSpace(" ");
  }
}
