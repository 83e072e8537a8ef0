/** The filter drawer: three multi-select lists (locations, job types,
    departments), a search box and an open/closed flag. Applying the drawer,
    or typing in the search box, hands the career page one criteria record
    built from the FIRST selection of each list. */
module FilterDrawer {
  import opened Types
  import Seqs
  import CareerPage

  /** The job-type chips the drawer offers, in display order. */
  const JobTypeChoices: seq<string> := ["full-time", "part-time", "remote", "hybrid", "contract"]

  /** Every offered chip is the stored name of one of the five job types. */
  lemma JobTypeChoicesAreJobTypes()
    ensures forall k :: 0 <= k < |JobTypeChoices| ==> exists t :: JobTypeName(t) == JobTypeChoices[k]
  {
    assert JobTypeName(FullTime) == JobTypeChoices[0];
    assert JobTypeName(PartTime) == JobTypeChoices[1];
    assert JobTypeName(Remote) == JobTypeChoices[2];
    assert JobTypeName(Hybrid) == JobTypeChoices[3];
    assert JobTypeName(Contract) == JobTypeChoices[4];
  }

  /** `toggle`: a selected value is deselected (every copy of it dropped, the
      rest kept in order); an unselected value is appended. */
  function Toggle(arr: seq<string>, v: string): (r: seq<string>)
    ensures v in r <==> v !in arr
    ensures v !in arr ==> r == arr + [v]
    ensures v in arr ==> forall k :: 0 <= k < |arr| && arr[k] != v ==> arr[k] in r
    ensures forall k :: 0 <= k < |r| ==> r[k] in arr || r[k] == v
  {
    if v in arr then Seqs.Filter((x: string) => x != v, arr) else arr + [v]
  }

  /** Deselecting keeps the other selections in their order and number. */
  lemma ToggleOffKeepsOthers(arr: seq<string>, v: string, x: string)
    requires v in arr
    ensures Seqs.IsSubsequence(Toggle(arr, v), arr)
    ensures multiset(Toggle(arr, v))[x] == if x == v then 0 else multiset(arr)[x]
  {
    Seqs.FilterIsSubsequence((y: string) => y != v, arr);
    Seqs.FilterMultiset((y: string) => y != v, arr, x);
  }

  /** A duplicate-free selection stays duplicate-free. */
  lemma ToggleKeepsNoDuplicates(arr: seq<string>, v: string)
    requires Seqs.NoDuplicates(arr)
    ensures Seqs.NoDuplicates(Toggle(arr, v))
  {
    if v in arr {
      Seqs.FilterNoDuplicates((x: string) => x != v, arr);
    }
  }

  /** Toggling an unselected value twice gives the selection back. */
  lemma ToggleTwiceRestores(arr: seq<string>, v: string)
    requires v !in arr
    ensures Toggle(Toggle(arr, v), v) == arr
  {
    var t := arr + [v];
    var p := (x: string) => x != v;
    Seqs.FilterConcat(p, arr, [v]);
    Seqs.FilterAllPass(p, arr);
    assert Seqs.Filter(p, [v]) == [];
  }

  /** `arr[0] || ''`: the first selection, or no constraint. */
  function FirstOrNone(arr: seq<string>): (r: string)
    ensures arr == [] ==> r == ""
    ensures arr != [] ==> r == arr[0]
  {
    if arr == [] then "" else arr[0]
  }

  /** The record handed to the page: the first selection of each list and the
      given search text. */
  function Emitted(loc: seq<string>, types: seq<string>, depts: seq<string>, search: string): (f: Criteria)
    ensures f.location == FirstOrNone(loc) && f.jobType == FirstOrNone(types)
    ensures f.department == FirstOrNone(depts) && f.search == search
  {
    Criteria(FirstOrNone(loc), FirstOrNone(types), FirstOrNone(depts), search)
  }

  /** Only the first selected location counts: with two locations selected,
      a job at the second one is not listed. */
  lemma OnlyFirstLocationCounts(a: string, b: string, j: Job)
    requires a != "" && a != b && j.location == b
    ensures CareerPage.Filtered([j], Emitted([a, b], [], [], "")) == []
  {
  }

  /** The drawer's state. */
  class FilterDrawerState {
    var open: bool
    var loc: seq<string>
    var types: seq<string>
    var depts: seq<string>
    var search: string

    constructor ()
      ensures !open && loc == [] && types == [] && depts == [] && search == ""
    {
      open, loc, types, depts, search := false, [], [], [], "";
    }

    /** `activeCount`: one per selected value, plus one for a non-empty
        search; zero exactly when nothing is selected and the search is
        empty. */
    function ActiveCount(): (n: nat)
      reads this
      ensures n == |loc| + |types| + |depts| + (if search != "" then 1 else 0)
      ensures n == 0 <==> loc == [] && types == [] && depts == [] && search == ""
    {
      |loc| + |types| + |depts| + (if search == "" then 0 else 1)
    }

    /** The filter button opens the drawer. */
    method Open()
      modifies this
      ensures open && loc == old(loc) && types == old(types) && depts == old(depts) && search == old(search)
    {
      open := true;
    }

    /** A location chip. */
    method ToggleLocation(l: string)
      modifies this
      ensures loc == Toggle(old(loc), l)
      ensures open == old(open) && types == old(types) && depts == old(depts) && search == old(search)
    {
      loc := Toggle(loc, l);
    }

    /** A job-type chip. */
    method ToggleType(t: string)
      modifies this
      ensures types == Toggle(old(types), t)
      ensures open == old(open) && loc == old(loc) && depts == old(depts) && search == old(search)
    {
      types := Toggle(types, t);
    }

    /** A department checkbox. */
    method ToggleDepartment(d: string)
      modifies this
      ensures depts == Toggle(old(depts), d)
      ensures open == old(open) && loc == old(loc) && types == old(types) && search == old(search)
    {
      depts := Toggle(depts, d);
    }

    /** The "All Locations" chip. */
    method AllLocations()
      modifies this
      ensures loc == []
      ensures open == old(open) && types == old(types) && depts == old(depts) && search == old(search)
    {
      loc := [];
    }

    /** The "All Types" chip. */
    method AllTypes()
      modifies this
      ensures types == []
      ensures open == old(open) && loc == old(loc) && depts == old(depts) && search == old(search)
    {
      types := [];
    }

    /** `apply`: emit the first selections and the search text, then close.
        The selections themselves are kept. */
    method Apply() returns (emitted: Criteria)
      modifies this
      ensures emitted == Emitted(old(loc), old(types), old(depts), old(search))
      ensures !open && loc == old(loc) && types == old(types) && depts == old(depts) && search == old(search)
    {
      emitted := Criteria(FirstOrNone(loc), FirstOrNone(types), FirstOrNone(depts), search);
      open := false;
    }

    /** `clear`: empty the selections and the search; nothing is emitted and
        the drawer stays as it is. */
    method Clear()
      modifies this
      ensures loc == [] && types == [] && depts == [] && search == "" && open == old(open)
      ensures ActiveCount() == 0
    {
      loc, types, depts, search := [], [], [], "";
    }

    /** Typing in the search box: store the text and emit at once, with the
        current first selections, without waiting for `apply`. */
    method SearchChanged(text: string) returns (emitted: Criteria)
      modifies this
      ensures search == text
      ensures emitted == Emitted(old(loc), old(types), old(depts), text)
      ensures open == old(open) && loc == old(loc) && types == old(types) && depts == old(depts)
    {
      search := text;
      emitted := Criteria(FirstOrNone(loc), FirstOrNone(types), FirstOrNone(depts), text);
    }
  }
}
