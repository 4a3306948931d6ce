/** The page component as a state machine: the loaded advocates, the
    filtered list, the three query inputs and the current page, changed by
    the input handlers, the page buttons and the arrival of the data. */
module HomePage {
  import opened Sequences
  import opened Paging
  import opened Advocates
  import opened ClientSearch

  class Home {
    var advocates: seq<Advocate>
    var filteredAdvocates: seq<Advocate>
    var searchTerm: string
    var selectedCity: string
    var selectedSpecialty: string
    var page: int

    function CurrentQuery(): (q: Query)
      reads this
      ensures q.searchTerm == searchTerm && q.selectedCity == selectedCity
      ensures q.selectedSpecialty == selectedSpecialty
    {
      Query(searchTerm, selectedCity, selectedSpecialty)
    }

    /** Holds in every state: pages are numbered from 1 and the filtered list
        is drawn, in order, from the loaded one. */
    ghost predicate Valid()
      reads this
    {
      page >= 1 && SubseqOf(filteredAdvocates, advocates)
    }

    /** The filtered list is what the current inputs select from the loaded
        list. */
    ghost predicate InSync()
      reads this
    {
      filteredAdvocates == Filtered(advocates, CurrentQuery())
    }

    /** The first render: the initial state values, followed by the
        mount-time run of the filter effect over the still-empty list. */
    constructor ()
      ensures Valid() && InSync()
      ensures advocates == [] && filteredAdvocates == []
      ensures CurrentQuery() == InitialQuery && page == 1
    {
      advocates := [];
      filteredAdvocates := [];
      searchTerm := "";
      selectedCity := All;
      selectedSpecialty := All;
      page := 1;
    }

    /** The filter effect: `filterData()` resets the page to 1 and stores the
        advocates the current inputs select. */
    method RunFilter()
      modifies this`page, this`filteredAdvocates
      ensures page == 1 && filteredAdvocates == Filtered(advocates, CurrentQuery())
      ensures Valid() && InSync()
    {
      var result := FilterData(advocates, CurrentQuery());
      page := 1;
      filteredAdvocates := result;
    }

    /** Typing in the search box. React re-runs the effect only when the
        value actually changes; then the filter runs and the page resets. */
    method SetSearchTerm(term: string)
      requires Valid()
      modifies this
      ensures Valid()
      ensures searchTerm == term && advocates == old(advocates)
      ensures selectedCity == old(selectedCity) && selectedSpecialty == old(selectedSpecialty)
      ensures term != old(searchTerm) ==> page == 1 && InSync()
      ensures term == old(searchTerm) ==>
                page == old(page) && filteredAdvocates == old(filteredAdvocates)
    {
      if term != searchTerm {
        searchTerm := term;
        RunFilter();
      }
    }

    /** Choosing a city in the dropdown. */
    method SetCity(city: string)
      requires Valid()
      modifies this
      ensures Valid()
      ensures selectedCity == city && advocates == old(advocates)
      ensures searchTerm == old(searchTerm) && selectedSpecialty == old(selectedSpecialty)
      ensures city != old(selectedCity) ==> page == 1 && InSync()
      ensures city == old(selectedCity) ==>
                page == old(page) && filteredAdvocates == old(filteredAdvocates)
    {
      if city != selectedCity {
        selectedCity := city;
        RunFilter();
      }
    }

    /** Choosing a specialty in the dropdown. */
    method SetSpecialty(specialty: string)
      requires Valid()
      modifies this
      ensures Valid()
      ensures selectedSpecialty == specialty && advocates == old(advocates)
      ensures searchTerm == old(searchTerm) && selectedCity == old(selectedCity)
      ensures specialty != old(selectedSpecialty) ==> page == 1 && InSync()
      ensures specialty == old(selectedSpecialty) ==>
                page == old(page) && filteredAdvocates == old(filteredAdvocates)
    {
      if specialty != selectedSpecialty {
        selectedSpecialty := specialty;
        RunFilter();
      }
    }

    /** Clicking page button `num`: only the page changes. */
    method SetPage(num: int)
      requires Valid() && 1 <= num <= PageCount(|filteredAdvocates|)
      modifies this`page
      ensures Valid() && page == num
      ensures filteredAdvocates == old(filteredAdvocates) && CurrentQuery() == old(CurrentQuery())
      ensures InSync() == old(InSync())
      ensures PaginatedAdvocates() != []
    {
      page := num;
      ButtonsAreNonEmptyPages(filteredAdvocates, num);
      assert num == PageButtons(|filteredAdvocates|)[num - 1];
    }

    /** The fetched advocates arriving: both lists are set to the data as
        received, and the filter is not run again. */
    method ReceiveAdvocates(data: seq<Advocate>)
      requires Valid()
      modifies this`advocates, this`filteredAdvocates
      ensures Valid()
      ensures advocates == data && filteredAdvocates == data
      ensures CurrentQuery() == old(CurrentQuery()) && page == old(page)
    {
      advocates := data;
      filteredAdvocates := data;
      SubseqOfSelf(data);
    }

    /** The fetched advocates arriving, with the inputs typed while they were
        loading applied to them. */
    method ReceiveAdvocatesFiltered(data: seq<Advocate>)
      modifies this
      ensures Valid() && InSync()
      ensures advocates == data && CurrentQuery() == old(CurrentQuery()) && page == 1
    {
      advocates := data;
      RunFilter();
    }

    /** `paginatedAdvocates`: the advocates on the current page, at most six,
        starting at index `(page - 1) * 6` of the filtered list. */
    function PaginatedAdvocates(): (r: seq<Advocate>)
      reads this
      requires Valid()
      ensures SubseqOf(r, filteredAdvocates)
      ensures |r| == Min(PageSize, Max(0, |filteredAdvocates| - PageStart(page)))
      ensures forall i :: 0 <= i < |r| ==> r[i] == filteredAdvocates[PageStart(page) + i]
    {
      var r := PageSlice(filteredAdvocates, page);
      SliceIsSubseq(filteredAdvocates, Min(PageStart(page), |filteredAdvocates|),
                    Min(PageStart(page) + PageSize, |filteredAdvocates|));
      r
    }
  }

  /** A contiguous slice is a subsequence. */
  lemma {:induction false} SliceIsSubseq<T>(s: seq<T>, i: nat, j: nat)
    requires i <= j <= |s|
    ensures SubseqOf(s[i..j], s)
    decreases |s|
  {
    if i < j {
      if i == 0 {
        SliceIsSubseq(s[1..], 0, j - 1);
        assert s[1..][0..j - 1] == s[0..j][1..];
      } else {
        SliceIsSubseq(s[1..], i - 1, j - 1);
        assert s[1..][i - 1..j - 1] == s[i..j];
      }
    }
  }

  /** After the data arrives as received, the filtered list agrees with the
      inputs exactly when every loaded advocate passes them: in particular
      when the inputs are still at their initial values. */
  lemma ReceivedListInSyncIff(data: seq<Advocate>, q: Query)
    ensures Filtered(data, q) == data <==> forall a :: a in data ==> Matches(q, a)
    ensures q == InitialQuery ==> Filtered(data, q) == data
  {
    if forall a :: a in data ==> Matches(q, a) {
      FilterKeepsAll(data, a => Matches(q, a));
    }
    if Filtered(data, q) == data {
      forall a | a in data ensures Matches(q, a) {
        assert a in Filtered(data, q);
      }
    }
  }

  /** An advocate whose every searchable value is shorter than six characters. */
  const ShortAdvocate: Advocate := Advocate("Ann", "Lee", "Reno", "MD", [], 3, "5550100")

  /** A search typed before the data arrives is ignored: the list shows an
      advocate the search box excludes. */
  lemma TypedQueryIgnoredOnArrival()
    ensures Filtered([ShortAdvocate], Query("zzzzzz", All, All)) != [ShortAdvocate]
  {
    var q := Query("zzzzzz", All, All);
    assert !TextMatches(ShortAdvocate, "zzzzzz") by {
      forall v | v in SearchableValues(ShortAdvocate)
        ensures !Text.Includes(Text.Lower(v), Text.Lower("zzzzzz"))
      {
        assert |v| < 6;
      }
    }
    ReceivedListInSyncIff([ShortAdvocate], q);
  }

  /** The same, played through the component: type a search while the
      list is loading, then let the data arrive. As written, the typed
      search is ignored and the advocate is listed; with the corrected
      arrival, nothing is listed. */
  method EarlyTypingScenario() returns (asWritten: seq<Advocate>, corrected: seq<Advocate>)
    ensures asWritten == [ShortAdvocate] && corrected == []
    ensures corrected == Filtered(asWritten, Query("zzzzzz", All, All))
  {
    var home := new Home();
    home.SetSearchTerm("zzzzzz");
    home.ReceiveAdvocates([ShortAdvocate]);
    TypedQueryIgnoredOnArrival();
    assert !home.InSync();
    asWritten := home.filteredAdvocates;
    home.ReceiveAdvocatesFiltered([ShortAdvocate]);
    corrected := home.filteredAdvocates;
    assert home.InSync();
    assert corrected == [] by {
      assert ShortAdvocate !in corrected;
      assert forall a :: a in corrected ==> a in [ShortAdvocate];
    }
  }
}
