/** The page component's filter engine and the values it derives from the
    loaded advocates: the text, city and specialty stages of `filterData`
    and the options of the two dropdowns. */
module ClientSearch {
  import opened Text
  import opened Sequences
  import opened Advocates

  /** The three query inputs of the page. */
  datatype Query = Query(searchTerm: string, selectedCity: string, selectedSpecialty: string)

  /** The inputs as the page starts: an empty search box and both dropdowns
      on "All". */
  const InitialQuery: Query := Query("", All, All)

  /** The values the search box is matched against: first name, last name,
      city, degree, each specialty, and the years of experience in decimal. */
  function SearchableValues(a: Advocate): (vs: seq<string>)
    ensures |vs| == 5 + |a.specialties|
  {
    [a.firstName, a.lastName, a.city, a.degree] + a.specialties + [NatToDecimal(a.yearsOfExperience)]
  }

  /** Some searchable value, lower-cased, includes the lower-cased term. */
  predicate TextMatches(a: Advocate, term: string) {
    exists v :: v in SearchableValues(a) && Includes(Lower(v), Lower(term))
  }

  /** The three stages; a stage whose input is empty or "All" lets every
      advocate through. */
  predicate TextStage(q: Query, a: Advocate) {
    q.searchTerm == "" || TextMatches(a, q.searchTerm)
  }

  predicate CityStage(q: Query, a: Advocate) {
    q.selectedCity == All || a.city == q.selectedCity
  }

  predicate SpecialtyStage(q: Query, a: Advocate) {
    q.selectedSpecialty == All || q.selectedSpecialty in a.specialties
  }

  /** An advocate passes every active stage of the query. */
  predicate Matches(q: Query, a: Advocate) {
    TextStage(q, a) && CityStage(q, a) && SpecialtyStage(q, a)
  }

  /** The filtered list a query determines: the matching advocates in their
      loaded order. */
  function Filtered(advocates: seq<Advocate>, q: Query): seq<Advocate> {
    Filter(advocates, a => Matches(q, a))
  }

  /** `filterData` without its two state writes: narrows `advocates` by the
      text stage, then the city stage, then the specialty stage, skipping
      each stage whose input is empty or "All". */
  method FilterData(advocates: seq<Advocate>, q: Query) returns (result: seq<Advocate>)
    ensures result == Filtered(advocates, q)
    ensures SubseqOf(result, advocates)
    ensures forall a :: a in result <==> a in advocates && Matches(q, a)
    ensures q == InitialQuery ==> result == advocates
  {
    result := advocates;
    ghost var text := (a: Advocate) => TextStage(q, a);
    ghost var textCity := (a: Advocate) => TextStage(q, a) && CityStage(q, a);
    ghost var all := (a: Advocate) => Matches(q, a);
    if q.searchTerm != "" {
      var term := Lower(q.searchTerm);
      result := Filter(result, (a: Advocate) => exists v :: v in SearchableValues(a) && Includes(Lower(v), term));
      FilterCongruent(advocates, (a: Advocate) => exists v :: v in SearchableValues(a) && Includes(Lower(v), term), text);
    } else {
      FilterKeepsAll(advocates, text);
    }
    assert result == Filter(advocates, text);
    if q.selectedCity != All {
      result := Filter(result, (a: Advocate) => a.city == q.selectedCity);
      FilterFilter(advocates, text, (a: Advocate) => a.city == q.selectedCity, textCity);
    } else {
      FilterCongruent(advocates, text, textCity);
    }
    assert result == Filter(advocates, textCity);
    if q.selectedSpecialty != All {
      result := Filter(result, (a: Advocate) => q.selectedSpecialty in a.specialties);
      FilterFilter(advocates, textCity, (a: Advocate) => q.selectedSpecialty in a.specialties, all);
    } else {
      FilterCongruent(advocates, textCity, all);
    }
    FilterIsSubseq(advocates, all);
    if q == InitialQuery {
      FilterKeepsAll(advocates, all);
    }
  }

  /** The text stage keeps an advocate exactly when the lower-cased term
      occurs in the lower-cased first name, last name, city or degree, in one
      lower-cased specialty, or in the years of experience in decimal. */
  lemma TextStageIff(a: Advocate, term: string)
    requires term != ""
    ensures TextMatches(a, term) <==>
              IsSubstring(Lower(term), Lower(a.firstName))
              || IsSubstring(Lower(term), Lower(a.lastName))
              || IsSubstring(Lower(term), Lower(a.city))
              || IsSubstring(Lower(term), Lower(a.degree))
              || (exists s :: s in a.specialties && IsSubstring(Lower(term), Lower(s)))
              || IsSubstring(Lower(term), NatToDecimal(a.yearsOfExperience))
  {
    var vs := SearchableValues(a);
    var years := NatToDecimal(a.yearsOfExperience);
    assert Lower(years) == years by {
      forall i | 0 <= i < |years| ensures Lower(years)[i] == years[i] {
        assert '0' <= years[i] <= '9';
      }
    }
    assert vs[0] == a.firstName && vs[1] == a.lastName && vs[2] == a.city && vs[3] == a.degree;
    assert vs[|vs| - 1] == years;
    forall s | s in a.specialties ensures s in vs {
      var i :| 0 <= i < |a.specialties| && a.specialties[i] == s;
      assert vs[4 + i] == s;
    }
    forall v | v in vs
      ensures v == a.firstName || v == a.lastName || v == a.city || v == a.degree
              || v in a.specialties || v == years
    {
      var i :| 0 <= i < |vs| && vs[i] == v;
      if 4 <= i < |vs| - 1 {
        assert v == a.specialties[i - 4];
      }
    }
  }

  /** With a city selected, every kept advocate is in exactly that city;
      with a specialty selected, every kept advocate lists exactly that
      specialty; and an advocate that passes every active stage is kept. */
  lemma FilteredSoundAndComplete(advocates: seq<Advocate>, q: Query, a: Advocate)
    ensures a in Filtered(advocates, q) && q.selectedCity != All ==> a.city == q.selectedCity
    ensures a in Filtered(advocates, q) && q.selectedSpecialty != All ==> q.selectedSpecialty in a.specialties
    ensures a in advocates && Matches(q, a) ==> a in Filtered(advocates, q)
  {
  }

  /** `advocates.map(a => a.city)` */
  function Cities(advocates: seq<Advocate>): (r: seq<string>)
    ensures |r| == |advocates|
    ensures forall i :: 0 <= i < |advocates| ==> r[i] == advocates[i].city
  {
    seq(|advocates|, i requires 0 <= i < |advocates| => advocates[i].city)
  }

  /** `advocates.flatMap(a => a.specialties)` */
  function AllSpecialties(advocates: seq<Advocate>): seq<string> {
    Flatten(seq(|advocates|, i requires 0 <= i < |advocates| => advocates[i].specialties))
  }

  /** The city dropdown: "All", then each city of a loaded advocate once,
      in the order the cities first appear. */
  function CityOptions(advocates: seq<Advocate>): (r: seq<string>)
    ensures |r| >= 1 && r[0] == All
    ensures forall c :: c in r[1..] <==> exists a :: a in advocates && a.city == c
    ensures NoDuplicates(r[1..])
  {
    var cities := Cities(advocates);
    assert forall c :: c in cities <==> exists a :: a in advocates && a.city == c by {
      forall c | c in cities ensures exists a :: a in advocates && a.city == c {
        var i :| 0 <= i < |cities| && cities[i] == c;
        assert advocates[i] in advocates;
      }
      forall c | exists a :: a in advocates && a.city == c ensures c in cities {
        var a :| a in advocates && a.city == c;
        var i :| 0 <= i < |advocates| && advocates[i] == a;
        assert cities[i] == c;
      }
    }
    var r := [All] + Distinct(cities);
    assert r[1..] == Distinct(cities);
    r
  }

  /** The specialty dropdown: "All", then each specialty of a loaded
      advocate once, in the order the specialties first appear. */
  function SpecialtyOptions(advocates: seq<Advocate>): (r: seq<string>)
    ensures |r| >= 1 && r[0] == All
    ensures forall s :: s in r[1..] <==> exists a :: a in advocates && s in a.specialties
    ensures NoDuplicates(r[1..])
  {
    var lists := seq(|advocates|, i requires 0 <= i < |advocates| => advocates[i].specialties);
    forall s | exists a :: a in advocates && s in a.specialties
      ensures s in AllSpecialties(advocates)
    {
      var a :| a in advocates && s in a.specialties;
      var i :| 0 <= i < |advocates| && advocates[i] == a;
      assert s in lists[i];
    }
    var r := [All] + Distinct(AllSpecialties(advocates));
    assert r[1..] == Distinct(AllSpecialties(advocates));
    r
  }

  /** Both dropdowns list their values in first-seen order. */
  lemma OptionsFirstSeenOrder(advocates: seq<Advocate>)
    ensures var r := CityOptions(advocates)[1..];
            forall i, j :: 0 <= i < j < |r| ==>
              FirstIndex(Cities(advocates), r[i]) < FirstIndex(Cities(advocates), r[j])
    ensures var r := SpecialtyOptions(advocates)[1..];
            forall i, j :: 0 <= i < j < |r| ==>
              FirstIndex(AllSpecialties(advocates), r[i]) < FirstIndex(AllSpecialties(advocates), r[j])
  {
    DistinctFirstSeenOrder(Cities(advocates));
    DistinctFirstSeenOrder(AllSpecialties(advocates));
    assert CityOptions(advocates)[1..] == Distinct(Cities(advocates));
    assert SpecialtyOptions(advocates)[1..] == Distinct(AllSpecialties(advocates));
  }

  /** Picking any offered city or specialty, with the search box empty and
      the other dropdown on "All", leaves at least one advocate listed. */
  lemma OfferedOptionsAreNonEmpty(advocates: seq<Advocate>, c: string, s: string)
    ensures c in CityOptions(advocates)[1..] ==> Filtered(advocates, Query("", c, All)) != []
    ensures s in SpecialtyOptions(advocates)[1..] ==> Filtered(advocates, Query("", All, s)) != []
  {
    if c in CityOptions(advocates)[1..] {
      var a :| a in advocates && a.city == c;
      assert Matches(Query("", c, All), a);
    }
    if s in SpecialtyOptions(advocates)[1..] {
      var a :| a in advocates && s in a.specialties;
      assert Matches(Query("", All, s), a);
    }
  }
}
