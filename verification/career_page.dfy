/** The public career page's job list: the location and department choices
    derived from the company's jobs, and `handleFilter`, which recomputes the
    displayed list from the full job list and four optional criteria. */
module CareerPage {
  import opened Types
  import opened JsStrings
  import Seqs

  // ----------------------------------------------------------- the criteria

  predicate LocationOk(j: Job, f: Criteria) { f.location == "" || j.location == f.location }
  predicate JobTypeOk(j: Job, f: Criteria) { f.jobType == "" || JobTypeName(j.jobType) == f.jobType }
  predicate DepartmentOk(j: Job, f: Criteria) { f.department == "" || j.department == f.department }
  predicate SearchOk(j: Job, f: Criteria) { f.search == "" || Includes(Lower(j.title), Lower(f.search)) }

  /** A job satisfies every criterion that was supplied (non-empty). */
  predicate Matches(j: Job, f: Criteria) {
    LocationOk(j, f) && JobTypeOk(j, f) && DepartmentOk(j, f) && SearchOk(j, f)
  }

  // ---------------------------------------------------------- handleFilter

  /** `handleFilter`: start from all jobs and narrow by each supplied
      criterion in turn, location, type, department, then the case-insensitive
      title search. */
  function Filtered(jobs: seq<Job>, f: Criteria): (r: seq<Job>)
    ensures |r| <= |jobs|
  {
    var r0 := jobs;
    var r1 := if f.location != "" then Seqs.Filter((j: Job) => j.location == f.location, r0) else r0;
    var r2 := if f.jobType != "" then Seqs.Filter((j: Job) => JobTypeName(j.jobType) == f.jobType, r1) else r1;
    var r3 := if f.department != "" then Seqs.Filter((j: Job) => j.department == f.department, r2) else r2;
    if f.search != "" then Seqs.Filter((j: Job) => Includes(Lower(j.title), Lower(f.search)), r3) else r3
  }

  /** The chain of filters is one filter by the conjunction of the criteria. */
  lemma FilteredIsMatches(jobs: seq<Job>, f: Criteria)
    ensures Filtered(jobs, f) == Seqs.Filter((j: Job) => Matches(j, f), jobs)
  {
    var m1 := (j: Job) => LocationOk(j, f);
    var m2 := (j: Job) => LocationOk(j, f) && JobTypeOk(j, f);
    var m3 := (j: Job) => LocationOk(j, f) && JobTypeOk(j, f) && DepartmentOk(j, f);
    var m4 := (j: Job) => Matches(j, f);
    var r1 := if f.location != "" then Seqs.Filter((j: Job) => j.location == f.location, jobs) else jobs;
    if f.location != "" {
      Seqs.FilterExt((j: Job) => j.location == f.location, m1, jobs);
    } else {
      Seqs.FilterAllPass(m1, jobs);
    }
    assert r1 == Seqs.Filter(m1, jobs);
    var q2 := (j: Job) => JobTypeName(j.jobType) == f.jobType;
    var r2 := if f.jobType != "" then Seqs.Filter(q2, r1) else r1;
    if f.jobType != "" {
      Seqs.FilterFuse(m1, q2, m2, jobs);
    } else {
      Seqs.FilterExt(m1, m2, jobs);
    }
    assert r2 == Seqs.Filter(m2, jobs);
    var q3 := (j: Job) => j.department == f.department;
    var r3 := if f.department != "" then Seqs.Filter(q3, r2) else r2;
    if f.department != "" {
      Seqs.FilterFuse(m2, q3, m3, jobs);
    } else {
      Seqs.FilterExt(m2, m3, jobs);
    }
    assert r3 == Seqs.Filter(m3, jobs);
    var q4 := (j: Job) => Includes(Lower(j.title), Lower(f.search));
    if f.search != "" {
      Seqs.FilterFuse(m3, q4, m4, jobs);
    } else {
      Seqs.FilterExt(m3, m4, jobs);
    }
  }

  /** The result keeps the jobs' order and adds nothing. */
  lemma FilteredIsSubsequence(jobs: seq<Job>, f: Criteria)
    ensures Seqs.IsSubsequence(Filtered(jobs, f), jobs)
  {
    FilteredIsMatches(jobs, f);
    Seqs.FilterIsSubsequence((j: Job) => Matches(j, f), jobs);
  }

  /** Soundness: every listed job equals each supplied location, type and
      department exactly, and its lowercased title contains the lowercased
      search text. */
  lemma FilteredIsSound(jobs: seq<Job>, f: Criteria)
    ensures forall k :: 0 <= k < |Filtered(jobs, f)| ==>
      var j := Filtered(jobs, f)[k];
      j in jobs &&
      (f.location != "" ==> j.location == f.location) &&
      (f.jobType != "" ==> JobTypeName(j.jobType) == f.jobType) &&
      (f.department != "" ==> j.department == f.department) &&
      Includes(Lower(j.title), Lower(f.search))
  {
    FilteredIsMatches(jobs, f);
    forall k | 0 <= k < |Filtered(jobs, f)|
      ensures Includes(Lower(Filtered(jobs, f)[k].title), Lower(f.search))
    {
      if f.search == "" {
        assert OccursAt(Lower(Filtered(jobs, f)[k].title), Lower(f.search), 0);
      }
    }
  }

  /** Completeness: a job that satisfies every supplied criterion is listed,
      as many times as it occurs in the jobs; a job that fails one is not. */
  lemma FilteredIsComplete(jobs: seq<Job>, f: Criteria, j: Job)
    ensures multiset(Filtered(jobs, f))[j] == if Matches(j, f) then multiset(jobs)[j] else 0
  {
    FilteredIsMatches(jobs, f);
    Seqs.FilterMultiset((x: Job) => Matches(x, f), jobs, j);
  }

  /** With no criteria, every job is listed. */
  lemma NoCriteriaListsAll(jobs: seq<Job>)
    ensures Filtered(jobs, NoCriteria) == jobs
  {
  }

  /** Filtering the result again by the same criteria changes nothing. */
  lemma FilteredIdempotent(jobs: seq<Job>, f: Criteria)
    ensures Filtered(Filtered(jobs, f), f) == Filtered(jobs, f)
  {
    FilteredIsMatches(jobs, f);
    FilteredIsMatches(Filtered(jobs, f), f);
    Seqs.FilterIdempotent((j: Job) => Matches(j, f), jobs);
  }

  /** Location matching is exact: "Berlin" does not select "Berlin, Germany". */
  lemma LocationIsExact(j: Job)
    requires j.location == "Berlin, Germany"
    ensures Filtered([j], Criteria("Berlin", "", "", "")) == []
  {
  }

  /** Search ignores ASCII case and matches inside the title: "engine"
      selects "Senior Engineer". */
  lemma SearchIsCaseInsensitiveSubstring(j: Job)
    requires j.title == "Senior Engineer"
    ensures Filtered([j], Criteria("", "", "", "engine")) == [j]
  {
    var t, q := Lower(j.title), Lower("engine");
    assert t[7..13] == "engine";
    assert q == "engine";
    assert OccursAt(t, q, 7);
  }

  // ------------------------------------------------ location/department lists

  /** `[...new Set(values.filter(Boolean))]`: the non-empty values, each once,
      in order of first occurrence. */
  function NonEmptyDistinct(values: seq<string>): (r: seq<string>)
    ensures Seqs.NoDuplicates(r)
    ensures forall k :: 0 <= k < |r| ==> r[k] != "" && r[k] in values
    ensures forall k :: 0 <= k < |values| && values[k] != "" ==> values[k] in r
  {
    Seqs.Distinct(Seqs.Filter((v: string) => v != "", values))
  }

  /** The distinct non-empty values come out in order of first occurrence. */
  lemma NonEmptyDistinctOrder(values: seq<string>)
    ensures forall i, j :: 0 <= i < j < |NonEmptyDistinct(values)| ==>
      Seqs.FirstIndex(values, NonEmptyDistinct(values)[i]) < Seqs.FirstIndex(values, NonEmptyDistinct(values)[j])
  {
    var p := (v: string) => v != "";
    var ne := Seqs.Filter(p, values);
    var r := NonEmptyDistinct(values);
    Seqs.DistinctFirstOccurrenceOrder(ne);
    forall i, j | 0 <= i < j < |r|
      ensures Seqs.FirstIndex(values, r[i]) < Seqs.FirstIndex(values, r[j])
    {
      Seqs.FilterFirstIndexOrder(p, values, r[i], r[j]);
    }
  }

  /** `locs`: the distinct non-empty job locations. */
  function Locations(jobs: seq<Job>): (r: seq<string>)
    ensures Seqs.NoDuplicates(r)
    ensures forall k :: 0 <= k < |jobs| && jobs[k].location != "" ==> jobs[k].location in r
    ensures forall k :: 0 <= k < |r| ==> r[k] != "" && exists j :: j in jobs && j.location == r[k]
  {
    var values := seq(|jobs|, k requires 0 <= k < |jobs| => jobs[k].location);
    assert forall k :: 0 <= k < |jobs| ==> values[k] == jobs[k].location;
    var r := NonEmptyDistinct(values);
    assert forall k :: 0 <= k < |r| ==> exists i :: 0 <= i < |jobs| && values[i] == r[k];
    r
  }

  /** `depts`: the distinct non-empty job departments. */
  function Departments(jobs: seq<Job>): (r: seq<string>)
    ensures Seqs.NoDuplicates(r)
    ensures forall k :: 0 <= k < |jobs| && jobs[k].department != "" ==> jobs[k].department in r
    ensures forall k :: 0 <= k < |r| ==> r[k] != "" && exists j :: j in jobs && j.department == r[k]
  {
    var values := seq(|jobs|, k requires 0 <= k < |jobs| => jobs[k].department);
    assert forall k :: 0 <= k < |jobs| ==> values[k] == jobs[k].department;
    var r := NonEmptyDistinct(values);
    assert forall k :: 0 <= k < |r| ==> exists i :: 0 <= i < |jobs| && values[i] == r[k];
    r
  }

  // --------------------------------------------------------- the page state

  /** The page's job list state: all jobs until the first filter call, then
      the jobs matching the latest criteria. */
  class CareerPageState {
    const jobs: seq<Job>
    var filtered: seq<Job>

    constructor (jobs: seq<Job>)
      ensures this.jobs == jobs && filtered == jobs
    {
      this.jobs := jobs;
      filtered := jobs;
    }

    /** `handleFilter`: always from the full job list, never from the
        previous result. */
    method HandleFilter(f: Criteria)
      modifies this
      ensures filtered == Filtered(jobs, f)
    {
      filtered := Filtered(jobs, f);
    }
  }
}
