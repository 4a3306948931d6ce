/** GET /api/advocates: reads the query string, builds the filter clauses,
    and answers with one page of the matching rows and their total count.
    The advocates table is an in-memory sequence in its fixed row order;
    the SQL operators are modelled by what they compute. */
module AdvocatesRoute {
  import opened Wrappers
  import opened Text
  import opened SqlPattern
  import opened Sequences
  import opened Paging
  import opened Advocates

  /** The status and message of every failed request. */
  const InternalError: string := "Internal Server Error"

  /** The query string. An absent parameter is `None`; `page` is the integer
      `parseInt` reads from the parameter, and `None` when the parameter is
      absent or empty. */
  datatype SearchParams = SearchParams(
    page: Option<int>,
    searchTerm: Option<string>,
    selectedCity: Option<string>,
    selectedSpecialty: Option<string>
  )

  /** One entry of the `filters` array. */
  datatype Clause =
    | TextClause(term: string)      // first name, last name, city or specialties text ILIKE %term%
    | CityEquals(city: string)      // city = value
    | SpecialtyLike(specialty: string)  // specialties text ILIKE %specialty%

  /** The JSON body and status of the answer. */
  datatype Response =
    | Success(data: seq<Advocate>, total: nat)
    | Failure(status: int, error: string)

  /** A label in double quotes. */
  function Quoted(s: string): string {
    "\"" + s + "\""
  }

  /** The labels quoted and separated by `, `. */
  function JoinQuoted(labels: seq<string>): string {
    if labels == [] then ""
    else if |labels| == 1 then Quoted(labels[0])
    else Quoted(labels[0]) + ", " + JoinQuoted(labels[1..])
  }

  /** `specialties::text`: the text Postgres renders for the jsonb array of
      labels, `["a", "b"]`. */
  function SpecialtiesText(labels: seq<string>): (t: string)
    ensures |t| >= 2 && t[0] == '[' && t[|t| - 1] == ']'
    ensures labels == [] ==> t == "[]"
  {
    "[" + JoinQuoted(labels) + "]"
  }

  /** Each label can be found in the rendered text. */
  lemma {:induction false} LabelInJoined(labels: seq<string>, l: string) returns (k: int)
    requires l in labels
    ensures OccursAt(l, JoinQuoted(labels), k)
  {
    var head := Quoted(labels[0]);
    if labels[0] == l {
      assert OccursAt(l, l, 0);
      OccursInConcat(l, "\"", l, "\"", 0);
      var tail := if |labels| == 1 then "" else ", " + JoinQuoted(labels[1..]);
      assert JoinQuoted(labels) == [] + head + tail;
      OccursInConcat(l, [], head, tail, 1);
      k := 1;
    } else {
      var k' := LabelInJoined(labels[1..], l);
      assert JoinQuoted(labels) == (head + ", ") + JoinQuoted(labels[1..]) + [];
      OccursInConcat(l, head + ", ", JoinQuoted(labels[1..]), [], k');
      k := |head + ", "| + k';
    }
  }

  lemma LabelInText(labels: seq<string>, l: string) returns (k: int)
    requires l in labels
    ensures OccursAt(l, SpecialtiesText(labels), k)
  {
    var j := LabelInJoined(labels, l);
    OccursInConcat(l, "[", JoinQuoted(labels), "]", j);
    k := 1 + j;
  }

  /** What one clause says of a row. */
  predicate Holds(c: Clause, row: Advocate) {
    match c
    case TextClause(t) =>
      ILike(row.firstName, ContainsPattern(t)) || ILike(row.lastName, ContainsPattern(t))
      || ILike(row.city, ContainsPattern(t))
      || ILike(SpecialtiesText(row.specialties), ContainsPattern(t))
    case CityEquals(city) => row.city == city
    case SpecialtyLike(l) => ILike(SpecialtiesText(row.specialties), ContainsPattern(l))
  }

  /** `and(...filters)`: every clause holds. */
  predicate AllHold(filters: seq<Clause>, row: Advocate) {
    forall c :: c in filters ==> Holds(c, row)
  }

  /** `searchParams.get("page") || "1"`, read as an integer. */
  function PageNumber(page: Option<int>): (n: int)
    ensures page.None? ==> n == 1
    ensures page.Some? ==> n == page.value
  {
    match page
    case None => 1
    case Some(n) => n
  }

  /** `searchParams.get("searchTerm")?.trim() || ""` */
  function TermOf(searchTerm: Option<string>): (t: string)
    ensures searchTerm.None? ==> t == ""
    ensures searchTerm.Some? ==> (t == "" <==> AllSpace(searchTerm.value))
  {
    match searchTerm
    case None => ""
    case Some(s) => Trim(s)
  }

  /** A dropdown parameter that filters: present, non-empty and not "All". */
  predicate Selects(o: Option<string>): (b: bool)
    ensures o.None? || o == Some("") || o == Some(All) ==> !b
    ensures b ==> o.Some? && |o.value| > 0
  {
    o.Some? && o.value != "" && o.value != All
  }

  /** `(page - 1) * itemsPerPage` */
  function Offset(page: int): (o: int)
    ensures page >= 1 ==> o >= 0
    ensures page == 1 ==> o == 0
  {
    PageStart(page)
  }

  /** The meaning of the query, clause by clause: the trimmed term, if
      any, occurs case-insensitively in the first name, last name, city or
      specialties text; the selected city, if any, is the row's city; the
      selected specialty, if any, occurs case-insensitively in the
      specialties text. */
  predicate RowMatches(params: SearchParams, row: Advocate) {
    var term := TermOf(params.searchTerm);
    && (term != "" ==> Holds(TextClause(term), row))
    && (Selects(params.selectedCity) ==> row.city == params.selectedCity.value)
    && (Selects(params.selectedSpecialty) ==> Holds(SpecialtyLike(params.selectedSpecialty.value), row))
  }

  /** Builds the `filters` array by conditional pushes: a text clause for a
      non-blank term, a city clause and a specialty clause for dropdowns that
      filter. Their conjunction selects exactly the rows the query means. */
  method BuildFilters(params: SearchParams) returns (filters: seq<Clause>)
    ensures var term := TermOf(params.searchTerm);
            forall c :: c in filters <==>
              (term != "" && c == TextClause(term))
              || (Selects(params.selectedCity) && c == CityEquals(params.selectedCity.value))
              || (Selects(params.selectedSpecialty) && c == SpecialtyLike(params.selectedSpecialty.value))
    ensures |filters| <= 3
    ensures forall row :: AllHold(filters, row) <==> RowMatches(params, row)
  {
    var term := TermOf(params.searchTerm);
    filters := [];
    if term != "" {
      filters := filters + [TextClause(term)];
    }
    if Selects(params.selectedCity) {
      filters := filters + [CityEquals(params.selectedCity.value)];
    }
    if Selects(params.selectedSpecialty) {
      filters := filters + [SpecialtyLike(params.selectedSpecialty.value)];
    }
    forall row ensures AllHold(filters, row) <==> RowMatches(params, row) {
      if term != "" {
        assert TextClause(term) in filters;
      }
      if Selects(params.selectedCity) {
        assert CityEquals(params.selectedCity.value) in filters;
      }
      if Selects(params.selectedSpecialty) {
        assert SpecialtyLike(params.selectedSpecialty.value) in filters;
      }
    }
  }

  /** `filters.length ? and(...filters) : undefined` */
  function WhereClause(filters: seq<Clause>): (w: Option<seq<Clause>>)
    ensures w.None? <==> filters == []
  {
    if |filters| > 0 then Some(filters) else None
  }

  /** A row satisfies the WHERE clause; no clause selects every row. */
  predicate Satisfies(where: Option<seq<Clause>>, row: Advocate) {
    match where
    case None => true
    case Some(filters) => AllHold(filters, row)
  }

  /** `SELECT * FROM advocates WHERE where`, in table order. */
  function Select(table: seq<Advocate>, where: Option<seq<Clause>>): (r: seq<Advocate>)
    ensures SubseqOf(r, table)
    ensures forall row :: row in r <==> row in table && Satisfies(where, row)
    ensures where.None? ==> r == table
  {
    var keep := row => Satisfies(where, row);
    FilterIsSubseq(table, keep);
    if where.None? then
      FilterKeepsAll(table, keep);
      Filter(table, keep)
    else
      Filter(table, keep)
  }

  /** `LIMIT limit OFFSET offset` on a non-negative offset. */
  function LimitOffset(rows: seq<Advocate>, limit: nat, offset: nat): (r: seq<Advocate>)
    ensures |r| == Min(limit, Max(0, |rows| - offset))
    ensures forall i :: 0 <= i < |r| ==> r[i] == rows[offset + i]
  {
    rows[Min(offset, |rows|)..Min(offset + limit, |rows|)]
  }

  /** The rows a query matches, in table order. */
  function Matching(table: seq<Advocate>, params: SearchParams): (r: seq<Advocate>)
    ensures |r| <= |table|
    ensures forall row :: row in r <==> row in table && RowMatches(params, row)
  {
    Filter(table, row => RowMatches(params, row))
  }

  /** The handler. `storeFails` stands for the database raising an error
      during either query. Postgres rejects a negative OFFSET, so a page
      below 1 fails as well; every failure is caught and answered with
      status 500 and the generic message only. On success the page of data
      and the total come from the same WHERE clause: the total counts every
      matching row, and the data is the matching rows from the page's
      offset on, at most six of them. */
  method Get(table: seq<Advocate>, params: SearchParams, storeFails: bool) returns (r: Response)
    ensures r.Success? <==> !storeFails && PageNumber(params.page) >= 1
    ensures r.Failure? ==> r == Failure(500, InternalError)
    ensures r.Success? ==>
              var matching := Matching(table, params);
              var offset := Offset(PageNumber(params.page));
              && r.total == |matching|
              && |r.data| == Min(PageSize, Max(0, r.total - offset))
              && (forall i :: 0 <= i < |r.data| ==> r.data[i] == matching[offset + i])
  {
    var page := PageNumber(params.page);
    var offset := Offset(page);
    var filters := BuildFilters(params);
    var whereClause := WhereClause(filters);
    if storeFails || offset < 0 {
      return Failure(500, InternalError);
    }
    var selected := Select(table, whereClause);
    FilterCongruent(table, row => Satisfies(whereClause, row), row => RowMatches(params, row));
    var data := LimitOffset(selected, PageSize, offset);
    var count := |selected|;
    r := Success(data, count);
  }

  /** With no search term and neither dropdown filtering, every row
      matches, so the total is the size of the table. */
  lemma NoFiltersMatchEverything(table: seq<Advocate>, params: SearchParams)
    requires TermOf(params.searchTerm) == ""
    requires !Selects(params.selectedCity) && !Selects(params.selectedSpecialty)
    ensures Matching(table, params) == table
  {
    FilterKeepsAll(table, row => RowMatches(params, row));
  }

  /** Matching rows are drawn from the table in order; a selected city is
      the city of every matching row. */
  lemma MatchingSound(table: seq<Advocate>, params: SearchParams, row: Advocate)
    ensures SubseqOf(Matching(table, params), table)
    ensures row in Matching(table, params) && Selects(params.selectedCity) ==>
              row.city == params.selectedCity.value
    ensures row in table && RowMatches(params, row) ==> row in Matching(table, params)
  {
    FilterIsSubseq(table, r => RowMatches(params, r));
  }

  /** For a term without LIKE wildcards, the text clause holds exactly when
      the term occurs case-insensitively in the first name, last name, city
      or the specialties text; degree and experience are not searched. */
  lemma TextClauseIff(t: string, row: Advocate)
    requires NoWildcards(t)
    ensures Holds(TextClause(t), row) <==>
              Includes(Lower(row.firstName), Lower(t)) || Includes(Lower(row.lastName), Lower(t))
              || Includes(Lower(row.city), Lower(t))
              || Includes(Lower(SpecialtiesText(row.specialties)), Lower(t))
  {
    ILikeContainsIff(row.firstName, t);
    ILikeContainsIff(row.lastName, t);
    ILikeContainsIff(row.city, t);
    ILikeContainsIff(SpecialtiesText(row.specialties), t);
  }

  /** A row that lists the label exactly passes the specialty clause. */
  lemma MemberPassesSpecialtyClause(row: Advocate, specialty: string)
    requires specialty in row.specialties
    ensures Holds(SpecialtyLike(specialty), row)
  {
    var k := LabelInText(row.specialties, specialty);
    ILikeContainsComplete(SpecialtiesText(row.specialties), specialty, k);
  }

  /** The specialty clause over-matches: a label contained in a longer one
      selects rows that do not list it. */
  lemma SpecialtyClauseOverMatches()
    ensures var row := Advocate("Ann", "Lee", "Reno", "MD", ["ab"], 3, "5550100");
            Holds(SpecialtyLike("b"), row) && "b" !in row.specialties
  {
    var text := SpecialtiesText(["ab"]);
    assert text == "[\"ab\"]";
    assert OccursAt("b", text, 3);
    ILikeContainsComplete(text, "b", 3);
  }

  /** The text clause searches the rendered specialties, brackets included:
      the term "[" matches every row. */
  lemma BracketTermMatchesEveryRow(row: Advocate)
    ensures Holds(TextClause("["), row)
  {
    var text := SpecialtiesText(row.specialties);
    assert OccursAt("[", text, 0);
    ILikeContainsComplete(text, "[", 0);
  }
}
