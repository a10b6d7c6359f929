/**
 * The state of the listing page and the transitions its handlers make: fetching a page,
 * re-deriving the search view, advancing the page on scroll, and deleting a school
 * optimistically with a rollback when the server refuses.
 */
module ShowSchoolsPage {
  import opened Optional
  import opened Listing
  import opened Search

  /** What the fetch handler itself writes to `filteredSchools` (lines 47-65) before the
      search effect re-derives the view: with no term, the old view and the batch deduplicated
      together; with a term, the old view followed by the batch's matching records. */
  function PatchFiltered(view: seq<School>, data: seq<School>, term: string): seq<School>
  {
    if term == "" then Dedup(view + data) else view + FilterMatching(data, term)
  }

  /** When the batch brings only new ids, the patch already is the view the search effect
      derives afterwards from the merged list. */
  lemma PatchMatchesRederivation(prev: seq<School>, batch: seq<School>, term: string)
    requires UniqueIds(prev + Reverse(batch))
    ensures PatchFiltered(Project(prev, term), Reverse(batch), term) == Project(Merge(prev, batch), term)
  {
    assert Merge(prev, batch) == prev + Reverse(batch);
    ProjectConcat(prev, Reverse(batch), term);
  }

  /** With a term set, a batch that repeats a shown record makes the patch show it twice; the
      view the search effect then derives holds it once. */
  lemma PatchRepeatsRefetchedRecord()
    ensures var a := School(1, "Oak", "X", "Pune", "");
            !UniqueIds(PatchFiltered(Project([a], "K P"), Reverse([a]), "K P")) &&
            Project(Merge([a], [a]), "K P") == [a]
  {
    var a := School(1, "Oak", "X", "Pune", "");
    var term := "K P";
    assert term != "";
    ShownRecord(a);
    assert Project([a], term) == [a];
    assert Reverse([a]) == [a];
    var patch := PatchFiltered([a], [a], term);
    assert patch == [a, a];
    assert patch[0].id == patch[1].id;
    RefetchMergesToOne(a);
    assert Project(Merge([a], [a]), term) == [a];
  }

  lemma ShownRecord(a: School)
    requires a == School(1, "Oak", "X", "Pune", "")
    ensures FilterMatching([a], "K P") == [a]
  {
    LowerKP();
    JoinedTextHoldsKP(a);
    assert Matches(a, "K P");
    assert [a][1..] == [];
  }

  lemma RefetchMergesToOne(a: School)
    ensures Merge([a], [a]) == [a]
  {
    var s := [a, a];
    assert Reverse([a]) == [a] && [a] + [a] == s;
    assert FindIndex(s, a.id) == 0;
    assert KeepFirst(s, 1) == [a];
    assert KeepFirst(s, 2) == [a];
  }

  /** A merge into a list with unique ids keeps that list as a prefix and all its ids. */
  lemma MergeGrows(prev: seq<School>, batch: seq<School>)
    requires UniqueIds(prev)
    ensures prev <= Merge(prev, batch) && Ids(prev) <= Ids(Merge(prev, batch))
  {
  }

  /** The listing page's state, one field per `useState` of the component. */
  class ShowSchools {
    var schools: seq<School>
    var filteredSchools: seq<School>
    var loading: bool
    var loadingMore: bool
    var searchTerm: string
    var page: nat
    var hasMore: bool

    /** What every transition keeps: pages are numbered from 1 and no id is held twice. */
    ghost predicate Valid()
      reads this
    {
      page >= 1 && UniqueIds(schools)
    }

    /** The search effect has run since `schools` or `searchTerm` last changed. */
    ghost predicate Settled()
      reads this
    {
      filteredSchools == Project(schools, searchTerm)
    }

    /** The initial state of the component (lines 13-19). */
    constructor ()
      ensures Valid() && Settled()
      ensures schools == [] && filteredSchools == []
      ensures loading && !loadingMore && hasMore
      ensures searchTerm == "" && page == 1
    {
      schools := [];
      filteredSchools := [];
      loading := true;
      loadingMore := false;
      searchTerm := "";
      page := 1;
      hasMore := true;
    }

    /** `fetchSchools(pageNum)` up to the request: nothing happens for a page other than the
        first once the data has ended; otherwise the matching loading flag goes up. */
    method BeginFetch(pageNum: int) returns (started: bool)
      requires Valid()
      modifies this`loading, this`loadingMore
      ensures Valid()
      ensures started == (hasMore || pageNum == 1)
      ensures loading == (old(loading) || (started && pageNum == 1))
      ensures loadingMore == (old(loadingMore) || (started && pageNum != 1))
    {
      if !hasMore && pageNum != 1 {
        return false;
      }
      if pageNum == 1 {
        loading := true;
      } else {
        loadingMore := true;
      }
      started := true;
    }

    /** The rest of `fetchSchools` once the request has answered with `response`, or failed
        (`None`): the reversed batch is merged into `schools`, the view is patched, a short
        batch ends the data, and both loading flags drop either way. */
    method CompleteFetch(response: Option<seq<School>>)
      requires Valid()
      modifies this`schools, this`filteredSchools, this`hasMore, this`loading, this`loadingMore
      ensures Valid()
      ensures !loading && !loadingMore
      ensures response.None? ==>
                schools == old(schools) && filteredSchools == old(filteredSchools) && hasMore == old(hasMore)
      ensures response.Some? ==>
                schools == Merge(old(schools), response.value) &&
                filteredSchools == PatchFiltered(old(filteredSchools), Reverse(response.value), old(searchTerm)) &&
                hasMore == (old(hasMore) && |response.value| >= PAGE_SIZE)
      ensures old(schools) <= schools
      ensures Ids(schools) >= old(Ids(schools))
      ensures !old(hasMore) ==> !hasMore
    {
      if response.Some? {
        var batch := response.value;
        var merged := Merge(schools, batch);
        var patched := PatchFiltered(filteredSchools, Reverse(batch), searchTerm);
        MergeGrows(schools, batch);
        schools, filteredSchools := merged, patched;
        if |batch| < PAGE_SIZE {
          hasMore := false;
        }
      }
      loading := false;
      loadingMore := false;
    }

    /** The search effect: the view is re-derived from the whole list. */
    method ApplySearch()
      requires Valid()
      modifies this`filteredSchools
      ensures Valid() && Settled()
      ensures SubseqOf(filteredSchools, schools)
    {
      filteredSchools := Project(schools, searchTerm);
    }

    /** The search box's `onChange`. */
    method SetSearchTerm(term: string)
      requires Valid()
      modifies this`searchTerm
      ensures Valid() && searchTerm == term
    {
      searchTerm := term;
    }

    /** The scroll handler, with the scroll geometry reduced to `nearBottom`: the page
        advances by one only when no fetch is in flight and more data is expected. */
    method OnScroll(nearBottom: bool) returns (advanced: bool)
      requires Valid()
      modifies this`page
      ensures Valid()
      ensures advanced == (nearBottom && !loadingMore && hasMore && !loading)
      ensures page == old(page) + (if advanced then 1 else 0)
    {
      advanced := nearBottom && !loadingMore && hasMore && !loading;
      if advanced {
        page := page + 1;
      }
    }

    /** The optimistic part of `handleDelete`: both lists become the list without the id.
        `before` is the list the handler's rollback restores. */
    method Delete(schoolId: int) returns (before: seq<School>)
      requires Valid()
      modifies this`schools, this`filteredSchools
      ensures Valid()
      ensures before == old(schools)
      ensures schools == Remove(before, schoolId) && filteredSchools == schools
    {
      before := schools;
      RemoveAbsent(schools, schoolId);
      var updated := Remove(schools, schoolId);
      schools := updated;
      filteredSchools := updated;
    }

    /** The rollback of `handleDelete` when the server call fails: both lists become the list
        the handler saw before deleting. */
    method RevertDelete(before: seq<School>)
      requires Valid() && UniqueIds(before)
      modifies this`schools, this`filteredSchools
      ensures Valid()
      ensures schools == before && filteredSchools == before
    {
      schools := before;
      filteredSchools := before;
    }

    /** `handleDelete` from the confirmed click to the server's answer (`deleted`), with the
        search effect run after each change of `schools`: on success the record is gone from
        both lists and nothing else moved; on failure the state is exactly what it was. */
    method HandleDelete(schoolId: int, deleted: bool)
      requires Valid() && Settled()
      modifies this`schools, this`filteredSchools
      ensures Valid() && Settled()
      ensures deleted ==>
                schools == Remove(old(schools), schoolId) &&
                filteredSchools == Remove(old(filteredSchools), schoolId)
      ensures !deleted ==> schools == old(schools) && filteredSchools == old(filteredSchools)
    {
      var before := Delete(schoolId);
      ApplySearch();
      ProjectRemove(before, schoolId, searchTerm);
      if !deleted {
        RevertDelete(before);
        ApplySearch();
      }
    }
  }

  /** Two scroll signals around the start of the next page's fetch: the first advances the
      page and the fetch starts, the second finds the fetch in flight and does nothing. */
  method ScrollTwiceWhileFetching(firstBatch: seq<School>)
    returns (firstAdvanced: bool, fetchStarted: bool, secondAdvanced: bool)
    requires |firstBatch| >= PAGE_SIZE
    ensures firstAdvanced && fetchStarted && !secondAdvanced
  {
    var view := new ShowSchools();
    var initial := view.BeginFetch(view.page);
    view.CompleteFetch(Some(firstBatch));
    assert view.hasMore && !view.loading && !view.loadingMore;
    firstAdvanced := view.OnScroll(true);
    assert firstAdvanced && view.page == 2;
    fetchStarted := view.BeginFetch(view.page);
    assert view.loadingMore;
    secondAdvanced := view.OnScroll(true);
  }

  /** After a batch shorter than a page, scrolling never advances the page and a fetch of any
      later page does not start. */
  method ShortBatchEndsPaging(batch: seq<School>, nearBottom: bool, laterPage: int)
    returns (advanced: bool, started: bool)
    requires |batch| < PAGE_SIZE && laterPage != 1
    ensures !advanced && !started
  {
    var view := new ShowSchools();
    var initial := view.BeginFetch(1);
    view.CompleteFetch(Some(batch));
    advanced := view.OnScroll(nearBottom);
    started := view.BeginFetch(laterPage);
  }
}
