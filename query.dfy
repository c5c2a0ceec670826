/** The lookup behind `printCourseInfo`: the entered course number is trimmed and
    upper-cased and looked up, and each prerequisite of the course found is looked up
    in turn for its title. What is printed is returned as a value. */
module Query {
  import opened Wrappers
  import opened Text
  import opened CourseBst
  import opened CourseParser
  import opened Loader
  import opened SeqFacts

  /** Shown in place of the title of a prerequisite that is not in the catalog. */
  const TitleNotFound: string := "title not found"

  /** One printed prerequisite: its number as stored, and a title. */
  datatype PrereqEntry = PrereqEntry(number: string, title: string)

  /** The answer to a course query. */
  datatype CourseInfo =
    | NotFound(key: string)
    | Found(course: Course, prerequisites: seq<PrereqEntry>)

  /** The title `Find(p)` leads to, or the sentinel. */
  function TitleOf(catalog: map<string, Course>, p: string): string {
    var k := Upper(p);
    if k in catalog then catalog[k].title else TitleNotFound
  }

  /** The loop over `c->prerequisites`: one entry per prerequisite, in stored order;
      a prerequisite missing from the catalog gets the sentinel instead of a title. */
  function ResolvePrerequisites(catalog: map<string, Course>, prereqs: seq<string>): (r: seq<PrereqEntry>)
    ensures |r| == |prereqs|
    ensures forall i :: 0 <= i < |r| ==> r[i].number == prereqs[i]
    ensures forall i :: 0 <= i < |r| ==>
              (Upper(prereqs[i]) in catalog ==> r[i].title == catalog[Upper(prereqs[i])].title) &&
              (Upper(prereqs[i]) !in catalog ==> r[i].title == TitleNotFound)
  {
    if prereqs == [] then []
    else [PrereqEntry(prereqs[0], TitleOf(catalog, prereqs[0]))] + ResolvePrerequisites(catalog, prereqs[1..])
  }

  /** The course query on a catalog: trim and upper-case the input, look it up, and
      resolve the prerequisites of the course found. */
  function Describe(catalog: map<string, Course>, input: string): CourseInfo {
    var key := Upper(Trimmed(input));
    if key in catalog then Found(catalog[key], ResolvePrerequisites(catalog, catalog[key].prerequisites))
    else NotFound(key)
  }

  /** `printCourseInfo` after the input is read: normalise the key, `Find` it, then
      `Find` each prerequisite. */
  method CourseInfoOf(bst: CourseBST, input: string) returns (info: CourseInfo)
    requires bst.Valid()
    ensures info == Describe(bst.Model(), input)
  {
    var key := Trim(input);
    UpperIdempotent(key);
    key := ToUpperInPlace(key);
    var c := bst.Find(key);
    if c.None? {
      return NotFound(key);
    }
    var prereqs := c.value.prerequisites;
    var entries: seq<PrereqEntry> := [];
    var i := 0;
    while i < |prereqs|
      invariant i <= |prereqs|
      invariant entries == ResolvePrerequisites(bst.Model(), prereqs[..i])
    {
      var pnum := prereqs[i];
      var pc := bst.Find(pnum);
      var title := if pc.Some? then pc.value.title else TitleNotFound;
      ResolveAppend(bst.Model(), prereqs[..i], pnum);
      TakeOneMore(prereqs, i);
      entries := entries + [PrereqEntry(pnum, title)];
      i := i + 1;
    }
    TakeAll(prereqs);
    info := Found(c.value, entries);
  }

  // ---------------------------------------------------------------------
  // Properties of the query

  /** Resolving one more prerequisite appends one entry. */
  lemma ResolveAppend(catalog: map<string, Course>, ps: seq<string>, p: string)
    ensures ResolvePrerequisites(catalog, ps + [p]) ==
              ResolvePrerequisites(catalog, ps) + [PrereqEntry(p, TitleOf(catalog, p))]
  {
  }

  /** A course is found exactly when the normalised key is in the catalog, and then the
      answer carries that very entry. */
  lemma DescribeFinds(catalog: map<string, Course>, input: string)
    ensures Describe(catalog, input).Found? <==> Upper(Trimmed(input)) in catalog
    ensures Describe(catalog, input).Found? ==>
              Describe(catalog, input).course == catalog[Upper(Trimmed(input))] &&
              |Describe(catalog, input).prerequisites| == |catalog[Upper(Trimmed(input))].prerequisites|
    ensures Describe(catalog, input).NotFound? ==> Describe(catalog, input).key == Upper(Trimmed(input))
  {
  }

  /** The query ignores letter case and surrounding whitespace of the input. */
  lemma DescribeNormalizesInput(catalog: map<string, Course>, input: string)
    ensures Describe(catalog, Upper(input)) == Describe(catalog, input)
    ensures Describe(catalog, Trimmed(input)) == Describe(catalog, input)
  {
    UpperTrimCommute(input);
    UpperIdempotent(Trimmed(input));
    TrimIdempotent(input);
  }

  /** A key the catalog stores in normal form is found by itself. */
  lemma DescribeStoredKey(catalog: map<string, Course>, k: string)
    requires k in catalog && NormalKey(k)
    ensures Describe(catalog, k) == Found(catalog[k], ResolvePrerequisites(catalog, catalog[k].prerequisites))
  {
    TrimmedFixpoint(k);
    UpperFixpoint(k);
  }

  /** After a load, every course number in the catalog (everything the course list
      prints) can be queried back by that number. */
  lemma LoadedCoursesQueryable(lines: seq<string>, k: string)
    requires k in Catalog(LoadedCourses(Outcomes(lines)))
    ensures var catalog := Catalog(LoadedCourses(Outcomes(lines)));
            Describe(catalog, k) == Found(catalog[k], ResolvePrerequisites(catalog, catalog[k].prerequisites))
  {
    var cs := LoadedCourses(Outcomes(lines));
    CatalogKeys(cs);
    LoadedNormalized(lines);
    var i :| 0 <= i < |cs| && cs[i].number == k;
    DescribeStoredKey(Catalog(cs), k);
  }

  /** A prerequisite written in a loaded file is stored upper-cased and trimmed, so it is
      resolved exactly when a course with that number was loaded. */
  lemma PrerequisiteResolution(lines: seq<string>, k: string, j: nat)
    requires k in Catalog(LoadedCourses(Outcomes(lines)))
    requires j < |Catalog(LoadedCourses(Outcomes(lines)))[k].prerequisites|
    ensures var catalog := Catalog(LoadedCourses(Outcomes(lines)));
            var p := catalog[k].prerequisites[j];
            var e := ResolvePrerequisites(catalog, catalog[k].prerequisites)[j];
            e.number == p &&
            (p in catalog ==> e.title == catalog[p].title) &&
            (p !in catalog ==> e.title == TitleNotFound)
  {
    var cs := LoadedCourses(Outcomes(lines));
    var catalog := Catalog(cs);
    CatalogKeys(cs);
    LoadedNormalized(lines);
    var i :| 0 <= i < |cs| && cs[i].number == k;
    CatalogMembersLoaded(cs, k);
    UpperFixpoint(catalog[k].prerequisites[j]);
  }

  /** Each catalog entry is one of the loaded courses. */
  lemma {:induction false} CatalogMembersLoaded(cs: seq<Course>, k: string)
    requires k in Catalog(cs)
    ensures exists i :: 0 <= i < |cs| && cs[i] == Catalog(cs)[k]
  {
    var last := cs[|cs| - 1];
    if k != last.number {
      var init := cs[..|cs| - 1];
      CatalogMembersLoaded(init, k);
      var i :| 0 <= i < |init| && init[i] == Catalog(init)[k];
      assert cs[i] == init[i];
    } else {
      assert cs[|cs| - 1] == Catalog(cs)[k];
    }
  }
}
