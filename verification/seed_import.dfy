/** The import script after parsing: one company (tenant) per distinct city
    slug, derived from the city part of each location text, then one job
    insert per row, counting successes and failures and retrying a
    duplicate job slug once with a time stamp appended.

    The database is not modelled: the companies table is a map from slug to
    company id, and the outcome of every insert is an input. */
module SeedImport {
  import opened Types
  import opened JsStrings
  import Seqs
  import SeedCsv

  // ------------------------------------------------------------ the CSV row

  /** The ten columns the script reads from a parsed row. */
  datatype JobCsvRow = JobCsvRow(
    title: string, workPolicy: string, location: string, department: string,
    employmentType: string, experienceLevel: string, jobType: string,
    salaryRange: string, jobSlug: string, postedDaysAgo: string)

  /** A column of a parsed row; a column the header line lacks reads as ''. */
  function Column(row: map<string, string>, key: string): (v: string)
    ensures key in row ==> v == row[key]
    ensures key !in row ==> v == ""
  {
    if key in row then row[key] else ""
  }

  /** A parsed row read through the row type. */
  function ToJobRow(row: map<string, string>): (j: JobCsvRow)
    ensures j.location == Column(row, "location") && j.jobSlug == Column(row, "job_slug")
    ensures j.title == Column(row, "title") && j.department == Column(row, "department")
  {
    JobCsvRow(Column(row, "title"), Column(row, "work_policy"), Column(row, "location"),
      Column(row, "department"), Column(row, "employment_type"), Column(row, "experience_level"),
      Column(row, "job_type"), Column(row, "salary_range"), Column(row, "job_slug"),
      Column(row, "posted_days_ago"))
  }

  // ----------------------------------------------------- company from location

  /** `location.split(',')[0]`: the text before the first comma, or all of it. */
  function City(location: string): (city: string)
    ensures ',' !in city
    ensures ',' !in location ==> city == location
  {
    var parts := Split(location, ',');
    assert ',' !in location ==> parts == [location] by {
      if ',' !in location { SplitNoSeparator(location, ','); }
    }
    parts[0]
  }

  /** `.replace(/\s+/g, '-')`: every maximal run of white space becomes one
      '-'. */
  function DashSpaceRuns(s: string): (r: string)
    ensures forall k :: 0 <= k < |r| ==> !IsSpace(r[k])
    ensures NoUpper(s) ==> NoUpper(r)
    ensures |r| <= |s|
    decreases |s|
  {
    if s == [] then []
    else if IsSpace(s[0]) then
      var rest := TrimStart(s);
      assert NoUpper(s) ==> NoUpper(rest) by {
        if NoUpper(s) {
          forall k | 0 <= k < |rest| ensures !IsUpper(rest[k]) {
            assert rest[k] == s[|s| - |rest| + k];
          }
        }
      }
      "-" + DashSpaceRuns(rest)
    else
      [s[0]] + DashSpaceRuns(s[1..])
  }

  predicate NoUpper(s: string) {
    forall k :: 0 <= k < |s| ==> !IsUpper(s[k])
  }

  /** Text without white space passes unchanged. */
  lemma {:induction false} DashSpaceRunsNoSpace(s: string)
    requires forall k :: 0 <= k < |s| ==> !IsSpace(s[k])
    ensures DashSpaceRuns(s) == s
  {
    if s != [] {
      DashSpaceRunsNoSpace(s[1..]);
    }
  }

  /** A run of white space between a word and the rest becomes one '-'. */
  lemma {:induction false} DashSpaceRunsWord(a: string, w: string, b: string)
    requires forall k :: 0 <= k < |a| ==> !IsSpace(a[k])
    requires |w| >= 1 && AllSpace(w)
    requires b == [] || !IsSpace(b[0])
    ensures DashSpaceRuns(a + w + b) == a + "-" + DashSpaceRuns(b)
    decreases |a|
  {
    var s := a + w + b;
    if a == [] {
      assert s == w + b;
      DashSpaceRunsLead(w, b);
    } else {
      var t := a[1..] + w + b;
      assert s == [a[0]] + t;
      DashSpaceRunsCons(a[0], t);
      var a' := a[1..];
      forall k | 0 <= k < |a'| ensures !IsSpace(a'[k]) {
        assert a'[k] == a[k + 1];
      }
      DashSpaceRunsWord(a', w, b);
      assert a == [a[0]] + a[1..];
      assert [a[0]] + (a[1..] + "-" + DashSpaceRuns(b)) == a + "-" + DashSpaceRuns(b);
    }
  }

  /** A character other than white space passes unchanged. */
  lemma DashSpaceRunsCons(c: char, t: string)
    requires !IsSpace(c)
    ensures DashSpaceRuns([c] + t) == [c] + DashSpaceRuns(t)
  {
    assert ([c] + t)[1..] == t;
  }

  /** A leading white-space run becomes one '-'. */
  lemma DashSpaceRunsLead(w: string, b: string)
    requires |w| >= 1 && AllSpace(w)
    requires b == [] || !IsSpace(b[0])
    ensures DashSpaceRuns(w + b) == "-" + DashSpaceRuns(b)
  {
    assert (w + b)[0] == w[0];
    TrimStartSpaces(w, b);
  }

  /** Trimming the front of white space followed by a word leaves the word. */
  lemma {:induction false} TrimStartSpaces(w: string, b: string)
    requires AllSpace(w)
    requires b == [] || !IsSpace(b[0])
    ensures TrimStart(w + b) == b
  {
    if w == [] {
      assert w + b == b;
    } else {
      assert (w + b)[1..] == w[1..] + b;
      TrimStartSpaces(w[1..], b);
    }
  }

  /** The slug of a city: trimmed, lowercased, white-space runs as '-'. */
  function Slug(city: string): (slug: string)
    ensures forall k :: 0 <= k < |slug| ==> !IsSpace(slug[k])
    ensures NoUpper(slug)
    ensures |slug| <= |city|
  {
    var t := Trim(city);
    var l := Lower(t);
    assert NoUpper(l) by {
      forall k | 0 <= k < |l| ensures !IsUpper(l[k]) {
        assert l[k] == LowerChar(t[k]);
      }
    }
    DashSpaceRuns(l)
  }

  /** `getCompanyFromLocation`: the company's slug and display name, both
      from the city part of the location; the country part plays no role. */
  datatype CompanyInfo = CompanyInfo(slug: string, name: string)

  function CompanyFromLocation(location: string): (c: CompanyInfo)
    ensures forall k :: 0 <= k < |c.slug| ==> !IsSpace(c.slug[k])
    ensures NoUpper(c.slug)
    ensures |c.name| >= |" Office"| && c.name[|c.name| - |" Office"|..] == " Office"
    ensures ',' !in c.name
  {
    var city := City(location);
    var name := Trim(city) + " Office";
    assert ',' !in name by {
      TrimAddsNothing(city, ',');
    }
    assert name[|name| - |" Office"|..] == " Office";
    CompanyInfo(Slug(city), name)
  }

  /** The text after the first comma is ignored: the city is what comes
      before it. */
  lemma CityBeforeComma(city: string, rest: string)
    requires ',' !in city
    ensures City(city + "," + rest) == city
  {
    SplitAfterSeparator(city, rest, ',');
    assert city + [','] + rest == city + "," + rest;
  }

  /** Two locations with the same city share the company. */
  lemma SameCitySameCompany(a: string, b: string)
    requires City(a) == City(b)
    ensures CompanyFromLocation(a) == CompanyFromLocation(b)
  {
  }

  /** A city without white space is only lowercased. */
  lemma SlugOfWord(city: string)
    requires forall k :: 0 <= k < |city| ==> !IsSpace(city[k])
    ensures Slug(city) == Lower(city)
  {
    TrimNoSpaceEnds(city);
    var l := Lower(city);
    forall k | 0 <= k < |l| ensures !IsSpace(l[k]) {
      assert l[k] == LowerChar(city[k]);
    }
    DashSpaceRunsNoSpace(l);
  }

  /** The company of a location whose city is one word. */
  lemma CompanyOfWord(location: string, city: string)
    requires City(location) == city
    requires forall k :: 0 <= k < |city| ==> !IsSpace(city[k])
    ensures CompanyFromLocation(location) == CompanyInfo(Lower(city), city + " Office")
  {
    SlugOfWord(city);
    TrimNoSpaceEnds(city);
  }

  /** The company follows from the city's slug and name. */
  lemma CompanyOfCity(location: string, city: string, slug: string, name: string)
    requires City(location) == city && Slug(city) == slug && Trim(city) + " Office" == name
    ensures CompanyFromLocation(location) == CompanyInfo(slug, name)
  {
  }

  lemma BerlinSlugAndName()
    ensures Slug("Berlin") == "berlin" && Trim("Berlin") + " Office" == "Berlin Office"
  {
    BerlinWord("Berlin");
  }

  /** The city "Berlin", spelled out letter by letter. */
  predicate IsBerlin(city: string) {
    |city| == 6 && city[0] == 'B' && city[1] == 'e' && city[2] == 'r' &&
    city[3] == 'l' && city[4] == 'i' && city[5] == 'n'
  }

  lemma BerlinWord(city: string)
    requires IsBerlin(city)
    ensures Slug(city) == "berlin" && Trim(city) == city
  {
    BerlinHasNoSpace(city);
    SlugOfWord(city);
    TrimNoSpaceEnds(city);
    BerlinLowered(city);
  }

  lemma BerlinHasNoSpace(city: string)
    requires IsBerlin(city)
    ensures forall k :: 0 <= k < |city| ==> !IsSpace(city[k])
  {
  }

  lemma BerlinLowered(city: string)
    requires IsBerlin(city)
    ensures Lower(city) == "berlin"
  {
    assert Lower(city)[0] == 'b';
  }

  /** "Berlin, Germany", "Berlin, USA" and every other "Berlin,..." become
      the one "berlin" company, named "Berlin Office". */
  lemma BerlinExample(country: string)
    ensures CompanyFromLocation("Berlin," + country) == CompanyInfo("berlin", "Berlin Office")
  {
    CityBeforeComma("Berlin", country);
    assert "Berlin" + "," + country == "Berlin," + country;
    BerlinSlugAndName();
    CompanyOfCity("Berlin," + country, "Berlin", "berlin", "Berlin Office");
  }

  /** Slugging a slug changes nothing. */
  lemma SlugIdempotent(city: string)
    ensures Slug(Slug(city)) == Slug(city)
  {
    var s := Slug(city);
    SlugOfWord(s);
    assert Lower(s) == s;
  }

  lemma NewYorkSlug()
    ensures Slug("New  York") == "new-york"
  {
    NewYorkWord("New  York");
  }

  /** The city "New  York" (two spaces), spelled out letter by letter. */
  predicate IsNewYork(city: string) {
    |city| == 9 && city[0] == 'N' && city[1] == 'e' && city[2] == 'w' &&
    city[3] == ' ' && city[4] == ' ' && city[5] == 'Y' && city[6] == 'o' &&
    city[7] == 'r' && city[8] == 'k'
  }

  lemma NewYorkWord(city: string)
    requires IsNewYork(city)
    ensures Slug(city) == "new-york"
  {
    TrimNoSpaceEnds(city);
    var l := Lower(city);
    NewYorkLowered(city);
    NewYorkDashed(l);
  }

  /** The lowered city, letter by letter. */
  predicate IsNewYorkLower(l: string) {
    |l| == 9 && l[0] == 'n' && l[1] == 'e' && l[2] == 'w' &&
    l[3] == ' ' && l[4] == ' ' && l[5] == 'y' && l[6] == 'o' &&
    l[7] == 'r' && l[8] == 'k'
  }

  lemma NewYorkLowered(city: string)
    requires IsNewYork(city)
    ensures IsNewYorkLower(Lower(city))
  {
  }

  lemma NewYorkDashed(l: string)
    requires IsNewYorkLower(l)
    ensures DashSpaceRuns(l) == "new-york"
  {
    var a, w, b := l[..3], l[3..5], l[5..];
    assert l == a + w + b;
    assert a[0] == 'n' && a[1] == 'e' && a[2] == 'w';
    assert w[0] == ' ' && w[1] == ' ';
    assert b[0] == 'y' && b[1] == 'o' && b[2] == 'r' && b[3] == 'k';
    PiecesDashed(a, w, b);
  }

  /** "new", two spaces and "york" join as "new-york". */
  lemma PiecesDashed(a: string, w: string, b: string)
    requires |a| == 3 && a[0] == 'n' && a[1] == 'e' && a[2] == 'w'
    requires |w| == 2 && w[0] == ' ' && w[1] == ' '
    requires |b| == 4 && b[0] == 'y' && b[1] == 'o' && b[2] == 'r' && b[3] == 'k'
    ensures DashSpaceRuns(a + w + b) == "new-york"
  {
    assert forall k :: 0 <= k < |a| ==> !IsSpace(a[k]);
    assert AllSpace(w);
    assert forall k :: 0 <= k < |b| ==> !IsSpace(b[k]);
    DashSpaceRunsWord(a, w, b);
    DashSpaceRunsNoSpace(b);
    var r := a + "-" + b;
    assert r[0] == 'n' && r[1] == 'e' && r[2] == 'w' && r[3] == '-';
    assert r[4] == 'y' && r[5] == 'o' && r[6] == 'r' && r[7] == 'k';
  }

  /** A white-space run inside the city becomes one dash: "New  York, USA"
      gives "new-york". */
  lemma NewYorkExample(country: string)
    ensures CompanyFromLocation("New  York," + country).slug == "new-york"
  {
    CityBeforeComma("New  York", country);
    assert "New  York" + "," + country == "New  York," + country;
    NewYorkSlug();
  }

  // ---------------------------------------------------------- the companies

  /** `[...new Set(jobs.map(j => j.location))]`: each location once, in order
      of first occurrence; unlike the career page, '' is kept. */
  function UniqueLocations(jobs: seq<JobCsvRow>): (r: seq<string>)
    ensures Seqs.NoDuplicates(r)
    ensures forall k :: 0 <= k < |jobs| ==> jobs[k].location in r
    ensures forall k :: 0 <= k < |r| ==> exists i :: 0 <= i < |jobs| && jobs[i].location == r[k]
  {
    var values := seq(|jobs|, k requires 0 <= k < |jobs| => jobs[k].location);
    assert forall k :: 0 <= k < |jobs| ==> values[k] == jobs[k].location;
    Seqs.Distinct(values)
  }

  /** The locations come out in order of their first occurrence. */
  lemma UniqueLocationsOrder(jobs: seq<JobCsvRow>)
    ensures forall i, j :: 0 <= i < j < |UniqueLocations(jobs)| ==>
      var values := seq(|jobs|, k requires 0 <= k < |jobs| => jobs[k].location);
      Seqs.FirstIndex(values, UniqueLocations(jobs)[i]) < Seqs.FirstIndex(values, UniqueLocations(jobs)[j])
  {
    var values := seq(|jobs|, k requires 0 <= k < |jobs| => jobs[k].location);
    Seqs.DistinctFirstOccurrenceOrder(values);
  }

  /** The slug of a location's company. */
  function CompanySlug(location: string): string {
    CompanyFromLocation(location).slug
  }

  /** Every mapped location points at the company its slug names. */
  ghost predicate Consistent(companyMap: map<string, string>, table: map<string, string>, slugOf: string -> string) {
    forall l :: l in companyMap ==> slugOf(l) in table && companyMap[l] == table[slugOf(l)]
  }

  /** `table` keeps every entry of `table0`. */
  ghost predicate Extends(table: map<string, string>, table0: map<string, string>) {
    forall s :: s in table0 ==> s in table && table[s] == table0[s]
  }

  /** The location-to-company map and the companies table part-way through
      the company loop. */
  datatype CompanyState = CompanyState(companyMap: map<string, string>, table: map<string, string>)

  /** One pass of the company loop for the k-th location: reuse the company
      its slug has in the table, otherwise record the id the insert returned,
      or nothing when the insert failed. */
  function CompanyStep(st: CompanyState, location: string, k: nat, created: nat -> Option<string>,
                       slugOf: string -> string): CompanyState
  {
    var slug := slugOf(location);
    if slug in st.table then st.(companyMap := st.companyMap[location := st.table[slug]])
    else match created(k)
      case None => st
      case Some(id) => CompanyState(st.companyMap[location := id], st.table[slug := id])
  }

  /** One pass maps its own location, when the slug has a company or the
      insert returned an id, and no other. */
  lemma StepMapped(st: CompanyState, location: string, k: nat, created: nat -> Option<string>,
                   slugOf: string -> string)
    ensures var r := CompanyStep(st, location, k, created, slugOf);
      (location in r.companyMap <==> location in st.companyMap || slugOf(location) in st.table || created(k).Some?) &&
      forall l :: l != location ==> (l in r.companyMap <==> l in st.companyMap)
  {
  }

  /** One pass keeps the table's entries and adds at most its own slug, with
      the id the insert returned. */
  lemma StepTable(st: CompanyState, location: string, k: nat, created: nat -> Option<string>,
                  slugOf: string -> string)
    ensures var r := CompanyStep(st, location, k, created, slugOf);
      Extends(r.table, st.table) &&
      (forall s :: s in r.table <==> s in st.table || (s == slugOf(location) && created(k).Some?)) &&
      forall s :: s in r.table && s !in st.table ==> s == slugOf(location) && created(k) == Some(r.table[s])
  {
  }

  /** The state after the first `n` locations, starting from no mapped
      location and the existing table. */
  function CompaniesAfter(locations: seq<string>, n: nat, table0: map<string, string>,
                          created: nat -> Option<string>, slugOf: string -> string): (st: CompanyState)
    requires n <= |locations|
    decreases n
  {
    if n == 0 then CompanyState(map[], table0)
    else CompanyStep(CompaniesAfter(locations, n - 1, table0, created, slugOf), locations[n - 1], n - 1, created, slugOf)
  }

  /** Only listed locations get a company. */
  lemma {:induction false} MappedAreListed(locations: seq<string>, n: nat, table0: map<string, string>,
                                           created: nat -> Option<string>, slugOf: string -> string)
    requires n <= |locations|
    ensures forall l :: l in CompaniesAfter(locations, n, table0, created, slugOf).companyMap ==> l in locations[..n]
  {
    if n > 0 {
      MappedAreListed(locations, n - 1, table0, created, slugOf);
      var prev := CompaniesAfter(locations, n - 1, table0, created, slugOf);
      StepMapped(prev, locations[n - 1], n - 1, created, slugOf);
      assert locations[..n] == locations[..n - 1] + [locations[n - 1]];
    }
  }

  /** Some location among the first `n` has slug `s` and an insert that
      returned an id. */
  ghost predicate CreatedFor(locations: seq<string>, n: nat, created: nat -> Option<string>,
                             slugOf: string -> string, s: string)
    requires n <= |locations|
  {
    exists j :: 0 <= j < n && slugOf(locations[j]) == s && created(j).Some?
  }

  /** The table holds the existing companies and the slugs whose insert
      returned an id, and nothing else; each new company's id is the id an
      insert for a location with that slug returned. */
  lemma {:induction false} CompaniesTable(locations: seq<string>, n: nat, table0: map<string, string>,
                                          created: nat -> Option<string>, slugOf: string -> string)
    requires n <= |locations|
    ensures var t := CompaniesAfter(locations, n, table0, created, slugOf).table;
      Extends(t, table0) &&
      (forall s :: s in t <==> s in table0 || CreatedFor(locations, n, created, slugOf, s)) &&
      (forall s :: s in t && s !in table0 ==>
         exists j :: 0 <= j < n && slugOf(locations[j]) == s && created(j) == Some(t[s]))
  {
    var t := CompaniesAfter(locations, n, table0, created, slugOf).table;
    TableExtends(locations, n, table0, created, slugOf);
    forall s ensures s in t <==> s in table0 || CreatedFor(locations, n, created, slugOf, s) {
      InTable(locations, n, table0, created, slugOf, s);
    }
    forall s | s in t && s !in table0
      ensures exists j :: 0 <= j < n && slugOf(locations[j]) == s && created(j) == Some(t[s])
    {
      NewIdIsCreated(locations, n, table0, created, slugOf, s);
    }
  }

  /** The loop never changes or drops an existing company. */
  lemma {:induction false} TableExtends(locations: seq<string>, n: nat, table0: map<string, string>,
                                        created: nat -> Option<string>, slugOf: string -> string)
    requires n <= |locations|
    ensures Extends(CompaniesAfter(locations, n, table0, created, slugOf).table, table0)
  {
    if n > 0 {
      TableExtends(locations, n - 1, table0, created, slugOf);
      var prev := CompaniesAfter(locations, n - 1, table0, created, slugOf);
      var st := CompaniesAfter(locations, n, table0, created, slugOf);
      assert st == CompanyStep(prev, locations[n - 1], n - 1, created, slugOf);
      StepTable(prev, locations[n - 1], n - 1, created, slugOf);
      forall s | s in table0 ensures s in st.table && st.table[s] == table0[s] {
        assert s in prev.table && prev.table[s] == table0[s];
      }
    }
  }

  /** One slug's entry: it is in the table exactly when it was there already
      or an insert for it returned an id. */
  lemma {:induction false} InTable(locations: seq<string>, n: nat, table0: map<string, string>,
                                   created: nat -> Option<string>, slugOf: string -> string, s: string)
    requires n <= |locations|
    ensures s in CompaniesAfter(locations, n, table0, created, slugOf).table <==>
      s in table0 || CreatedFor(locations, n, created, slugOf, s)
  {
    if n > 0 {
      InTable(locations, n - 1, table0, created, slugOf, s);
      CreatedForStep(locations, n - 1, created, slugOf, s);
      var prev := CompaniesAfter(locations, n - 1, table0, created, slugOf);
      assert CompaniesAfter(locations, n, table0, created, slugOf) ==
        CompanyStep(prev, locations[n - 1], n - 1, created, slugOf);
      StepTable(prev, locations[n - 1], n - 1, created, slugOf);
    }
  }

  /** A company the loop added carries the id an insert for its slug
      returned. */
  lemma {:induction false} NewIdIsCreated(locations: seq<string>, n: nat, table0: map<string, string>,
                                          created: nat -> Option<string>, slugOf: string -> string, s: string)
    requires n <= |locations|
    requires s in CompaniesAfter(locations, n, table0, created, slugOf).table && s !in table0
    ensures var t := CompaniesAfter(locations, n, table0, created, slugOf).table;
      exists j :: 0 <= j < n && slugOf(locations[j]) == s && created(j) == Some(t[s])
  {
    var t := CompaniesAfter(locations, n, table0, created, slugOf).table;
    if n == 0 {
      assert false;
    } else {
      var prev := CompaniesAfter(locations, n - 1, table0, created, slugOf);
      assert CompaniesAfter(locations, n, table0, created, slugOf) ==
        CompanyStep(prev, locations[n - 1], n - 1, created, slugOf);
      StepTable(prev, locations[n - 1], n - 1, created, slugOf);
      if s in prev.table {
        NewIdIsCreated(locations, n - 1, table0, created, slugOf, s);
        assert t[s] == prev.table[s];
        var j :| 0 <= j < n - 1 && slugOf(locations[j]) == s && created(j) == Some(prev.table[s]);
        assert 0 <= j < n && slugOf(locations[j]) == s && created(j) == Some(t[s]);
      } else {
        assert slugOf(locations[n - 1]) == s && created(n - 1) == Some(t[s]);
      }
    }
  }

  /** Every mapped location points at its slug's company, and a location
      whose slug was in the table or whose insert returned an id is mapped. */
  lemma {:induction false} CompaniesKept(locations: seq<string>, n: nat, table0: map<string, string>,
                                         created: nat -> Option<string>, slugOf: string -> string)
    requires n <= |locations|
    ensures var st := CompaniesAfter(locations, n, table0, created, slugOf);
      Consistent(st.companyMap, st.table, slugOf) &&
      forall k :: 0 <= k < n && (slugOf(locations[k]) in table0 || created(k).Some?) ==>
        locations[k] in st.companyMap
  {
    CompaniesConsistent(locations, n, table0, created, slugOf);
    forall k | 0 <= k < n && (slugOf(locations[k]) in table0 || created(k).Some?)
      ensures locations[k] in CompaniesAfter(locations, n, table0, created, slugOf).companyMap
    {
      KeptAt(locations, n, table0, created, slugOf, k);
    }
  }

  /** Every mapped location points at the company its slug has. */
  lemma {:induction false} CompaniesConsistent(locations: seq<string>, n: nat, table0: map<string, string>,
                                               created: nat -> Option<string>, slugOf: string -> string)
    requires n <= |locations|
    ensures var st := CompaniesAfter(locations, n, table0, created, slugOf);
      Consistent(st.companyMap, st.table, slugOf)
  {
    if n > 0 {
      CompaniesConsistent(locations, n - 1, table0, created, slugOf);
      var prev := CompaniesAfter(locations, n - 1, table0, created, slugOf);
      var st := CompaniesAfter(locations, n, table0, created, slugOf);
      var loc := locations[n - 1];
      var slug := slugOf(loc);
      assert st == CompanyStep(prev, loc, n - 1, created, slugOf);
      if slug in prev.table {
        StepReuses(prev, st, loc, slug, slugOf);
      } else if created(n - 1).Some? {
        StepCreates(prev, st, loc, slug, created(n - 1).value, slugOf);
      } else {
        assert st == prev;
      }
    }
  }

  /** A location whose slug had a company, or whose insert returned an id,
      is mapped, and stays mapped. */
  lemma {:induction false} KeptAt(locations: seq<string>, n: nat, table0: map<string, string>,
                                  created: nat -> Option<string>, slugOf: string -> string, k: nat)
    requires k < n <= |locations|
    requires slugOf(locations[k]) in table0 || created(k).Some?
    ensures locations[k] in CompaniesAfter(locations, n, table0, created, slugOf).companyMap
  {
    var prev := CompaniesAfter(locations, n - 1, table0, created, slugOf);
    assert CompaniesAfter(locations, n, table0, created, slugOf) ==
      CompanyStep(prev, locations[n - 1], n - 1, created, slugOf);
    StepMapped(prev, locations[n - 1], n - 1, created, slugOf);
    if k < n - 1 {
      KeptAt(locations, n - 1, table0, created, slugOf, k);
    } else {
      TableExtends(locations, n - 1, table0, created, slugOf);
    }
  }

  /** Mapping a location to the company its slug has keeps the map
      consistent with the table. */
  lemma StepReuses(prev: CompanyState, st: CompanyState, loc: string, slug: string, slugOf: string -> string)
    requires Consistent(prev.companyMap, prev.table, slugOf)
    requires slug == slugOf(loc) && slug in prev.table
    requires st == prev.(companyMap := prev.companyMap[loc := prev.table[slug]])
    ensures Consistent(st.companyMap, st.table, slugOf)
    ensures loc in st.companyMap && forall l :: l in prev.companyMap ==> l in st.companyMap
  {
    forall l | l in st.companyMap ensures slugOf(l) in st.table && st.companyMap[l] == st.table[slugOf(l)] {
      if l != loc {
        assert l in prev.companyMap;
      }
    }
  }

  /** Recording a new company for a slug not yet in the table, and mapping
      the location to it, keeps the map consistent with the table. */
  lemma StepCreates(prev: CompanyState, st: CompanyState, loc: string, slug: string, id: string,
                    slugOf: string -> string)
    requires Consistent(prev.companyMap, prev.table, slugOf)
    requires slug == slugOf(loc) && slug !in prev.table
    requires st == CompanyState(prev.companyMap[loc := id], prev.table[slug := id])
    ensures Consistent(st.companyMap, st.table, slugOf)
    ensures loc in st.companyMap && forall l :: l in prev.companyMap ==> l in st.companyMap
  {
    forall l | l in st.companyMap ensures slugOf(l) in st.table && st.companyMap[l] == st.table[slugOf(l)] {
      if l != loc {
        assert l in prev.companyMap;
        assert slugOf(l) in prev.table;
      }
    }
  }

  /** With each location listed once, as the script's list of distinct
      locations is: a location has a company exactly when its slug was in the
      table already or an insert for its slug, its own or an earlier one,
      returned an id. A location whose insert failed, with no earlier company
      for its slug, stays unmapped. */
  lemma {:induction false} CompaniesMapped(locations: seq<string>, n: nat, table0: map<string, string>,
                                           created: nat -> Option<string>, slugOf: string -> string)
    requires n <= |locations|
    requires Seqs.NoDuplicates(locations)
    ensures var st := CompaniesAfter(locations, n, table0, created, slugOf);
      forall k :: 0 <= k < n ==>
        (locations[k] in st.companyMap <==>
         slugOf(locations[k]) in table0 || CreatedFor(locations, k + 1, created, slugOf, slugOf(locations[k])))
  {
    forall k | 0 <= k < n
      ensures locations[k] in CompaniesAfter(locations, n, table0, created, slugOf).companyMap <==>
        slugOf(locations[k]) in table0 || CreatedFor(locations, k + 1, created, slugOf, slugOf(locations[k]))
    {
      MappedAt(locations, n, table0, created, slugOf, k);
    }
  }

  /** The same for one location. */
  lemma {:induction false} MappedAt(locations: seq<string>, n: nat, table0: map<string, string>,
                                    created: nat -> Option<string>, slugOf: string -> string, k: nat)
    requires k < n <= |locations|
    requires Seqs.NoDuplicates(locations)
    ensures locations[k] in CompaniesAfter(locations, n, table0, created, slugOf).companyMap <==>
      slugOf(locations[k]) in table0 || CreatedFor(locations, k + 1, created, slugOf, slugOf(locations[k]))
  {
    if k < n - 1 {
      MappedAt(locations, n - 1, table0, created, slugOf, k);
      MappedEarlier(locations, n, table0, created, slugOf, k);
    } else {
      MappedLast(locations, n, table0, created, slugOf);
    }
  }

  /** The n-th pass maps its own location exactly when its slug has a
      company or an insert for its slug returned an id. */
  lemma MappedLast(locations: seq<string>, n: nat, table0: map<string, string>,
                   created: nat -> Option<string>, slugOf: string -> string)
    requires 0 < n <= |locations|
    requires Seqs.NoDuplicates(locations)
    ensures locations[n - 1] in CompaniesAfter(locations, n, table0, created, slugOf).companyMap <==>
      slugOf(locations[n - 1]) in table0 || CreatedFor(locations, n, created, slugOf, slugOf(locations[n - 1]))
  {
    NotYetMapped(locations, n - 1, table0, created, slugOf);
    var prev := CompaniesAfter(locations, n - 1, table0, created, slugOf);
    var loc := locations[n - 1];
    var slug := slugOf(loc);
    assert CompaniesAfter(locations, n, table0, created, slugOf) == CompanyStep(prev, loc, n - 1, created, slugOf);
    StepMapped(prev, loc, n - 1, created, slugOf);
    InTable(locations, n - 1, table0, created, slugOf, slug);
    CreatedForStep(locations, n - 1, created, slugOf, slug);
  }

  /** The n-th pass leaves the earlier locations as they were. */
  lemma MappedEarlier(locations: seq<string>, n: nat, table0: map<string, string>,
                      created: nat -> Option<string>, slugOf: string -> string, k: nat)
    requires k < n - 1 && n <= |locations|
    requires Seqs.NoDuplicates(locations)
    ensures locations[k] in CompaniesAfter(locations, n, table0, created, slugOf).companyMap <==>
      locations[k] in CompaniesAfter(locations, n - 1, table0, created, slugOf).companyMap
  {
    var prev := CompaniesAfter(locations, n - 1, table0, created, slugOf);
    var loc := locations[n - 1];
    assert CompaniesAfter(locations, n, table0, created, slugOf) == CompanyStep(prev, loc, n - 1, created, slugOf);
    StepMapped(prev, loc, n - 1, created, slugOf);
    assert locations[k] != loc;
  }

  /** With each location listed once, the next location is not mapped yet. */
  lemma NotYetMapped(locations: seq<string>, n: nat, table0: map<string, string>,
                     created: nat -> Option<string>, slugOf: string -> string)
    requires n < |locations|
    requires Seqs.NoDuplicates(locations)
    ensures locations[n] !in CompaniesAfter(locations, n, table0, created, slugOf).companyMap
  {
    MappedAreListed(locations, n, table0, created, slugOf);
    forall j | 0 <= j < n ensures locations[..n][j] != locations[n] {
      assert locations[..n][j] == locations[j];
    }
  }

  /** One more location adds its own slug when its insert returned an id. */
  lemma CreatedForStep(locations: seq<string>, n: nat, created: nat -> Option<string>,
                       slugOf: string -> string, s: string)
    requires n < |locations|
    ensures CreatedFor(locations, n + 1, created, slugOf, s) <==>
      CreatedFor(locations, n, created, slugOf, s) || (slugOf(locations[n]) == s && created(n).Some?)
  {
    if CreatedFor(locations, n + 1, created, slugOf, s) && !CreatedFor(locations, n, created, slugOf, s) {
      var j :| 0 <= j < n + 1 && slugOf(locations[j]) == s && created(j).Some?;
      assert j == n;
    }
    if CreatedFor(locations, n, created, slugOf, s) {
      var j :| 0 <= j < n && slugOf(locations[j]) == s && created(j).Some?;
      assert CreatedFor(locations, n + 1, created, slugOf, s);
    }
    if slugOf(locations[n]) == s && created(n).Some? {
      assert CreatedFor(locations, n + 1, created, slugOf, s);
    }
  }

  /** The company loop: for each location, reuse the company with its slug if
      the table has one, otherwise insert one; `created(k)` is the id the
      insert for the k-th location returns, or None when it fails, in which
      case the location gets no company. `slugOf` is the slug derivation,
      `CompanySlug` in the script. Returns the location-to-company map and
      the table afterwards. */
  method CreateCompanies(locations: seq<string>, table0: map<string, string>, created: nat -> Option<string>,
                         slugOf: string -> string)
    returns (companyMap: map<string, string>, table: map<string, string>)
    ensures CompanyState(companyMap, table) == CompaniesAfter(locations, |locations|, table0, created, slugOf)
    ensures forall l :: l in companyMap ==> l in locations
    ensures Consistent(companyMap, table, slugOf) && Extends(table, table0)
    ensures forall k :: 0 <= k < |locations| && slugOf(locations[k]) in table0 ==> locations[k] in companyMap
    ensures forall k :: 0 <= k < |locations| && created(k).Some? ==> locations[k] in companyMap
  {
    companyMap := map[];
    table := table0;
    var i := 0;
    while i < |locations|
      invariant 0 <= i <= |locations|
      invariant CompanyState(companyMap, table) == CompaniesAfter(locations, i, table0, created, slugOf)
    {
      var location := locations[i];
      var slug := slugOf(location);
      if slug in table {
        companyMap := companyMap[location := table[slug]];
      } else {
        match created(i)
        case None =>
        case Some(id) =>
          table := table[slug := id];
          companyMap := companyMap[location := id];
      }
      i := i + 1;
    }
    assert locations[..i] == locations;
    MappedAreListed(locations, i, table0, created, slugOf);
    CompaniesKept(locations, i, table0, created, slugOf);
    TableExtends(locations, i, table0, created, slugOf);
  }

  /** Two locations with the same slug end up with the same company. */
  lemma SameSlugSameCompany(companyMap: map<string, string>, table: map<string, string>, l1: string, l2: string)
    requires Consistent(companyMap, table, CompanySlug)
    requires l1 in companyMap && l2 in companyMap
    requires CompanySlug(l1) == CompanySlug(l2)
    ensures companyMap[l1] == companyMap[l2]
  {
  }

  // ------------------------------------------------------------- the jobs

  /** `Date.now()` written in decimal, as a template literal writes it. */
  function NatToString(n: nat): (s: string)
    ensures |s| >= 1
    ensures forall k :: 0 <= k < |s| ==> '0' <= s[k] <= '9'
  {
    if n < 10 then [Digit(n)] else NatToString(n / 10) + [Digit(n % 10)]
  }

  function Digit(d: nat): (c: char)
    requires d < 10
    ensures '0' <= c <= '9' && c as int - '0' as int == d
  {
    (d + '0' as int) as char
  }

  /** The number a string of decimal digits stands for. */
  function DigitsValue(s: string): nat
  {
    if s == [] then 0
    else
      var c := s[|s| - 1];
      DigitsValue(s[..|s| - 1]) * 10 + (if '0' <= c <= '9' then c as int - '0' as int else 0)
  }

  /** The decimal text reads back as the same number. */
  lemma {:induction false} NatToStringValue(n: nat)
    ensures DigitsValue(NatToString(n)) == n
  {
    if n >= 10 {
      NatToStringValue(n / 10);
      var s := NatToString(n);
      assert s[..|s| - 1] == NatToString(n / 10);
    }
  }

  /** The outcome of one insert: success, or an error with its code. */
  datatype InsertResult = Inserted | Failed(code: string)

  /** The unique-violation code of the database. */
  const DuplicateKey := "23505"

  /** One insert sent to the jobs table: the company, the row and the slug. */
  datatype JobInsert = JobInsert(companyId: string, row: JobCsvRow, slug: string)

  /** The slug of the retry: the row's slug, a dash and the time stamp. */
  function RetrySlug(jobSlug: string, stamp: nat): (slug: string)
    ensures |slug| > |jobSlug| + 1 && slug[..|jobSlug|] == jobSlug && slug[|jobSlug|] == '-'
  {
    jobSlug + "-" + NatToString(stamp)
  }

  /** The retry never reuses the slug that was rejected. */
  lemma RetrySlugDiffers(jobSlug: string, stamp: nat)
    ensures RetrySlug(jobSlug, stamp) != jobSlug
  {
  }

  /** What happened to one row. */
  datatype RowOutcome = NoCompany | FirstTry | OnRetry | RetryFailed | OtherError

  /** The company id of a row, when the map holds a non-empty one (`!companyId`
      rejects both a missing and an empty id). */
  predicate HasCompany(companyMap: map<string, string>, job: JobCsvRow) {
    job.location in companyMap && companyMap[job.location] != ""
  }

  /** The fate of the k-th row: no company; inserted; or, after a duplicate
      slug, retried and inserted or failed; or failed with another error.
      `respond(k, false)` is the first insert's result, `respond(k, true)`
      the retry's. */
  function Outcome(companyMap: map<string, string>, job: JobCsvRow, k: nat,
                   respond: (nat, bool) -> InsertResult): RowOutcome
  {
    if !HasCompany(companyMap, job) then NoCompany
    else match respond(k, false)
      case Inserted => FirstTry
      case Failed(code) =>
        if code != DuplicateKey then OtherError
        else if respond(k, true).Inserted? then OnRetry
        else RetryFailed
  }

  predicate IsSuccess(o: RowOutcome) { o == FirstTry || o == OnRetry }

  /** Number of the first `n` rows that were inserted. */
  function Successes(jobs: seq<JobCsvRow>, companyMap: map<string, string>,
                     respond: (nat, bool) -> InsertResult, n: nat): (c: nat)
    requires n <= |jobs|
    ensures c <= n
  {
    if n == 0 then 0
    else
      var last := if IsSuccess(Outcome(companyMap, jobs[n - 1], n - 1, respond)) then 1 else 0;
      Successes(jobs, companyMap, respond, n - 1) + last
  }

  /** The inserts the first `n` rows send, in order. */
  function Sent(jobs: seq<JobCsvRow>, companyMap: map<string, string>,
                respond: (nat, bool) -> InsertResult, now: nat -> nat, n: nat): seq<JobInsert>
    requires n <= |jobs|
  {
    if n == 0 then []
    else
      var last := RowInserts(companyMap, jobs[n - 1], n - 1, respond, now);
      Sent(jobs, companyMap, respond, now, n - 1) + last
  }

  /** The inserts one row sends: none without a company, the first insert,
      and after a duplicate slug a second one with the retry slug. */
  function RowInserts(companyMap: map<string, string>, job: JobCsvRow, k: nat,
                      respond: (nat, bool) -> InsertResult, now: nat -> nat): (r: seq<JobInsert>)
    ensures !HasCompany(companyMap, job) <==> r == []
    ensures |r| <= 2
    ensures forall i :: 0 <= i < |r| ==> r[i].companyId == companyMap[job.location] && r[i].row == job
    ensures |r| >= 1 ==> r[0].slug == job.jobSlug
    ensures |r| == 2 <==> Outcome(companyMap, job, k, respond) in {OnRetry, RetryFailed}
    ensures |r| == 2 ==> r[1].slug == RetrySlug(job.jobSlug, now(k))
  {
    if !HasCompany(companyMap, job) then []
    else
      var id := companyMap[job.location];
      var first := [JobInsert(id, job, job.jobSlug)];
      match respond(k, false)
      case Inserted => first
      case Failed(code) =>
        if code != DuplicateKey then first
        else first + [JobInsert(id, job, RetrySlug(job.jobSlug, now(k)))]
  }

  /** The job loop. Each row is counted exactly once, as a success or as an
      error, and the inserts are sent in row order. */
  method InsertJobs(jobs: seq<JobCsvRow>, companyMap: map<string, string>,
                    respond: (nat, bool) -> InsertResult, now: nat -> nat)
    returns (successCount: nat, errorCount: nat, sent: seq<JobInsert>)
    ensures successCount == Successes(jobs, companyMap, respond, |jobs|)
    ensures successCount + errorCount == |jobs|
    ensures sent == Sent(jobs, companyMap, respond, now, |jobs|)
  {
    successCount, errorCount, sent := 0, 0, [];
    var i := 0;
    while i < |jobs|
      invariant 0 <= i <= |jobs|
      invariant successCount == Successes(jobs, companyMap, respond, i)
      invariant successCount + errorCount == i
      invariant sent == Sent(jobs, companyMap, respond, now, i)
    {
      var ok, rowSent := InsertRow(jobs[i], i, companyMap, respond, now);
      sent := sent + rowSent;
      if ok {
        successCount := successCount + 1;
      } else {
        errorCount := errorCount + 1;
      }
      i := i + 1;
    }
  }

  /** One pass of the job loop for the k-th row: skip a row without a
      company; otherwise insert it, and after a duplicate-key error insert it
      once more under the retry slug. Returns whether the row counts as a
      success and the inserts it sent. */
  method InsertRow(job: JobCsvRow, k: nat, companyMap: map<string, string>,
                   respond: (nat, bool) -> InsertResult, now: nat -> nat)
    returns (ok: bool, rowSent: seq<JobInsert>)
    ensures ok == IsSuccess(Outcome(companyMap, job, k, respond))
    ensures rowSent == RowInserts(companyMap, job, k, respond, now)
  {
    if job.location !in companyMap || companyMap[job.location] == "" {
      return false, [];
    }
    var companyId := companyMap[job.location];
    rowSent := [JobInsert(companyId, job, job.jobSlug)];
    var result := respond(k, false);
    if result.Failed? {
      if result.code == DuplicateKey {
        var uniqueSlug := RetrySlug(job.jobSlug, now(k));
        rowSent := rowSent + [JobInsert(companyId, job, uniqueSlug)];
        var retry := respond(k, true);
        ok := !retry.Failed?;
      } else {
        ok := false;
      }
    } else {
      ok := true;
    }
  }

  /** Every insert names the company of its row, never an empty id. */
  lemma {:induction false} SentHaveCompanies(jobs: seq<JobCsvRow>, companyMap: map<string, string>,
                                             respond: (nat, bool) -> InsertResult, now: nat -> nat, n: nat)
    requires n <= |jobs|
    ensures forall i :: 0 <= i < |Sent(jobs, companyMap, respond, now, n)| ==>
      var s := Sent(jobs, companyMap, respond, now, n)[i];
      s.row.location in companyMap && s.companyId == companyMap[s.row.location] && s.companyId != ""
  {
    if n > 0 {
      SentHaveCompanies(jobs, companyMap, respond, now, n - 1);
    }
  }

  /** Each row is sent at most twice, so no more than two inserts per row. */
  lemma {:induction false} SentAtMostTwicePerRow(jobs: seq<JobCsvRow>, companyMap: map<string, string>,
                                                 respond: (nat, bool) -> InsertResult, now: nat -> nat, n: nat)
    requires n <= |jobs|
    ensures |Sent(jobs, companyMap, respond, now, n)| <= 2 * n
  {
    if n > 0 {
      SentAtMostTwicePerRow(jobs, companyMap, respond, now, n - 1);
    }
  }

  /** When every first insert succeeds, every row with a company counts as a
      success and no row is sent twice. */
  lemma {:induction false} AllAcceptedSendsOnce(jobs: seq<JobCsvRow>, companyMap: map<string, string>,
                                                respond: (nat, bool) -> InsertResult, now: nat -> nat, n: nat)
    requires n <= |jobs|
    requires forall k :: 0 <= k < |jobs| ==> respond(k, false) == Inserted
    requires forall k :: 0 <= k < |jobs| ==> HasCompany(companyMap, jobs[k])
    ensures Successes(jobs, companyMap, respond, n) == n
    ensures |Sent(jobs, companyMap, respond, now, n)| == n
  {
    if n > 0 {
      AllAcceptedSendsOnce(jobs, companyMap, respond, now, n - 1);
    }
  }

  /** A duplicate slug that the retry clears counts as a success, with the
      second insert using `<slug>-<stamp>`: for row "swe-1" at stamp 1700,
      the retry slug is "swe-1-1700". */
  lemma RetryExample(job: JobCsvRow, companyMap: map<string, string>,
                     respond: (nat, bool) -> InsertResult, now: nat -> nat)
    requires job.jobSlug == "swe-1" && HasCompany(companyMap, job)
    requires respond(0, false) == Failed(DuplicateKey) && respond(0, true) == Inserted
    requires now(0) == 1700
    ensures Outcome(companyMap, job, 0, respond) == OnRetry
    ensures RowInserts(companyMap, job, 0, respond, now)[1].slug == "swe-1-1700"
  {
    assert NatToString(1700) == "1700" by {
      assert NatToString(1) == "1";
      assert NatToString(17) == "17";
      assert NatToString(170) == "170";
    }
  }

  // --------------------------------------------------------------- seeding

  /** `seed` from the file content on: parse, derive the companies, insert
      the jobs. The outcome of each company insert and each job insert, the
      companies already in the table and the clock are inputs. */
  method Seed(content: string, table0: map<string, string>, created: nat -> Option<string>,
              respond: (nat, bool) -> InsertResult, now: nat -> nat)
    returns (successCount: nat, errorCount: nat, sent: seq<JobInsert>, table: map<string, string>)
    ensures var lines := Split(Trim(content), '\n');
      successCount + errorCount == |lines| - 1
    ensures Extends(table, table0)
    ensures forall i :: 0 <= i < |sent| ==>
      sent[i].companyId != "" && CompanySlug(sent[i].row.location) in table &&
      sent[i].companyId == table[CompanySlug(sent[i].row.location)]
  {
    var rows := SeedCsv.ParseCSV(content);
    assert |rows| == |Split(Trim(content), '\n')| - 1;
    var jobs := seq(|rows|, k requires 0 <= k < |rows| => ToJobRow(rows[k]));
    var locations := UniqueLocations(jobs);
    var companyMap;
    companyMap, table := CreateCompanies(locations, table0, created, CompanySlug);
    successCount, errorCount, sent := InsertJobs(jobs, companyMap, respond, now);
    SentHaveCompanies(jobs, companyMap, respond, now, |jobs|);
    SentUseTable(sent, companyMap, table);
  }

  /** Inserts that name their location's company name the company its slug
      has in the table. */
  lemma SentUseTable(sent: seq<JobInsert>, companyMap: map<string, string>, table: map<string, string>)
    requires Consistent(companyMap, table, CompanySlug)
    requires forall i :: 0 <= i < |sent| ==>
      var s := sent[i];
      s.row.location in companyMap && s.companyId == companyMap[s.row.location] && s.companyId != ""
    ensures forall i :: 0 <= i < |sent| ==>
      sent[i].companyId != "" && CompanySlug(sent[i].row.location) in table &&
      sent[i].companyId == table[CompanySlug(sent[i].row.location)]
  {
    forall i | 0 <= i < |sent|
      ensures CompanySlug(sent[i].row.location) in table
      ensures sent[i].companyId == table[CompanySlug(sent[i].row.location)]
    {
      var l := sent[i].row.location;
      assert l in companyMap;
    }
  }
}
