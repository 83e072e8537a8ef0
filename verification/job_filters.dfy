/** The single-select filter bar: four string fields, each `''` (no
    constraint) until changed, and `handleChange`, which updates the field
    named by a key and hands the page the updated record. */
module JobFilters {
  import opened Types

  /** `{ location, jobType, department, search, [key]: value }` as the page
      reads it: the field named `key` replaced by `value`; any other key adds
      a property the page never reads, so the four fields are unchanged. */
  function Updated(f: Criteria, key: string, value: string): (r: Criteria)
    ensures r.location == (if key == "location" then value else f.location)
    ensures r.jobType == (if key == "jobType" then value else f.jobType)
    ensures r.department == (if key == "department" then value else f.department)
    ensures r.search == (if key == "search" then value else f.search)
  {
    match key
    case "location" => f.(location := value)
    case "jobType" => f.(jobType := value)
    case "department" => f.(department := value)
    case "search" => f.(search := value)
    case _ => f
  }

  /** A key outside the four field names changes nothing. */
  lemma UnknownKeyChangesNothing(f: Criteria, key: string, value: string)
    requires key !in {"location", "jobType", "department", "search"}
    ensures Updated(f, key, value) == f
  {
  }

  /** Changing the same field twice keeps only the later value. */
  lemma LaterChangeWins(f: Criteria, key: string, v1: string, v2: string)
    ensures Updated(Updated(f, key, v1), key, v2) == Updated(f, key, v2)
  {
  }

  /** Changes to two different fields commute. */
  lemma DifferentKeysCommute(f: Criteria, k1: string, v1: string, k2: string, v2: string)
    requires k1 != k2
    ensures Updated(Updated(f, k1, v1), k2, v2) == Updated(Updated(f, k2, v2), k1, v1)
  {
  }

  /** The filter bar's state. */
  class JobFiltersState {
    var location: string
    var jobType: string
    var department: string
    var search: string

    /** All four fields start empty: no constraint. */
    constructor ()
      ensures Current() == NoCriteria
    {
      location, jobType, department, search := "", "", "", "";
    }

    function Current(): Criteria
      reads this
    {
      Criteria(location, jobType, department, search)
    }

    /** `handleChange`: the emitted record carries the new value, not the
        stale one, and the state afterwards equals what was emitted. An
        unknown key still emits, with the fields unchanged. */
    method HandleChange(key: string, value: string) returns (emitted: Criteria)
      modifies this
      ensures emitted == Updated(old(Current()), key, value)
      ensures Current() == emitted
    {
      emitted := Updated(Current(), key, value);
      if key == "location" { location := value; }
      if key == "jobType" { jobType := value; }
      if key == "department" { department := value; }
      if key == "search" { search := value; }
    }
  }
}
