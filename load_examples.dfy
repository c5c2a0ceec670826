/** Worked loads. The two lines "CS100,Intro" and "CS100,Introduction" both parse, so
    both are counted as loaded, and the second replaces the first in the catalog. A file
    with a blank and a malformed line loads the rest and reports the malformed one. */
module LoadExamples {
  import opened Text
  import opened CourseBst
  import opened CourseParser
  import opened Loader
  import opened ParseExamples

  /** Such a line has no edge whitespace either, so the load accepts it as it is. */
  lemma TwoFieldLineAccepted(number: string, title: string)
    requires NormalKey(number)
    requires title != [] && NoEdgeSpace(title) && CommaFree(title)
    ensures Outcome(number + "," + title) == Accepted(Course(number, title, []))
  {
    var s := number + "," + title;
    assert s[0] == number[0] && s[|s| - 1] == title[|title| - 1];
    TrimmedFixpoint(s);
    TwoFieldLine(number, title);
  }

  /** A two-line file has the two lines' outcomes, in order. */
  lemma TwoOutcomes(l1: string, l2: string)
    ensures Outcomes([l1, l2]) == [Outcome(l1), Outcome(l2)]
  {
    assert [l1, l2][..1] == [l1];
    assert [l1][..0] == [];
  }

  /** Two accepted lines load both courses and reject nothing. */
  lemma TwoAccepted(c1: Course, c2: Course)
    ensures LoadedCourses([Accepted(c1), Accepted(c2)]) == [c1, c2]
    ensures RejectedLines([Accepted(c1), Accepted(c2)]) == []
  {
    assert [Accepted(c1), Accepted(c2)][..1] == [Accepted(c1)];
    assert [Accepted(c1)][..0] == [];
    assert LoadedCourses([Accepted(c1)]) == [c1];
    assert RejectedLines([Accepted(c1)]) == [];
  }

  /** Inserting two courses: the second replaces the first when the numbers agree. */
  lemma CatalogOfTwo(c1: Course, c2: Course)
    ensures Catalog([c1, c2]) ==
              if c1.number == c2.number then map[c2.number := c2] else map[c1.number := c1, c2.number := c2]
  {
    assert [c1, c2][..1] == [c1];
    assert [c1][..0] == [];
    assert Catalog([c1]) == map[c1.number := c1];
    if c1.number == c2.number {
      assert map[c1.number := c1][c2.number := c2] == map[c2.number := c2];
    }
  }

  /** The first line of the file. */
  lemma IntroLine()
    ensures Outcome("CS100,Intro") == Accepted(Course("CS100", "Intro", []))
  {
    assert "CS100" + "," + "Intro" == "CS100,Intro";
    assert NormalKey("CS100");
    TwoFieldLineAccepted("CS100", "Intro");
  }

  /** Two well-formed lines with the same number both count as loaded and none is
      rejected; the catalog holds one course, the one from the later line. */
  lemma RepeatedNumber(number: string, t1: string, t2: string)
    requires NormalKey(number)
    requires t1 != [] && NoEdgeSpace(t1) && CommaFree(t1)
    requires t2 != [] && NoEdgeSpace(t2) && CommaFree(t2)
    ensures var os := Outcomes([number + "," + t1, number + "," + t2]);
            |LoadedCourses(os)| == 2 && RejectedLines(os) == [] &&
            Catalog(LoadedCourses(os)) == map[number := Course(number, t2, [])]
  {
    TwoFieldLineAccepted(number, t1);
    TwoFieldLineAccepted(number, t2);
    TwoOutcomes(number + "," + t1, number + "," + t2);
    TwoAccepted(Course(number, t1, []), Course(number, t2, []));
    CatalogOfTwo(Course(number, t1, []), Course(number, t2, []));
  }

  /** The lines "CS100,Intro" and "CS100,Introduction". */
  lemma DuplicateKeyExample()
    ensures var os := Outcomes(["CS100,Intro", "CS100,Introduction"]);
            |LoadedCourses(os)| == 2 && RejectedLines(os) == [] &&
            Catalog(LoadedCourses(os)) == map["CS100" := Course("CS100", "Introduction", [])]
  {
    assert "CS100" + "," + "Intro" == "CS100,Intro";
    assert "CS100" + "," + "Introduction" == "CS100,Introduction";
    assert NormalKey("CS100");
    RepeatedNumber("CS100", "Intro", "Introduction");
  }

  /** A line with one prerequisite, as the load sees it. */
  lemma ThreeFieldLineAccepted(number: string, title: string, p: string)
    requires NormalKey(number) && NormalKey(p)
    requires title != [] && NoEdgeSpace(title) && CommaFree(title)
    ensures Outcome(number + "," + title + "," + p) == Accepted(Course(number, title, [p]))
  {
    var s := number + "," + title + "," + p;
    assert s[0] == number[0] && s[|s| - 1] == p[|p| - 1];
    TrimmedFixpoint(s);
    ThreeFieldLine(number, title, p);
  }

  /** A four-line file has the four lines' outcomes, in order. */
  lemma FourOutcomes(l1: string, l2: string, l3: string, l4: string)
    ensures Outcomes([l1, l2, l3, l4]) == [Outcome(l1), Outcome(l2), Outcome(l3), Outcome(l4)]
  {
    var three := [l1, l2, l3];
    TwoOutcomes(l1, l2);
    assert three[..2] == [l1, l2];
    assert Outcomes(three) == [Outcome(l1), Outcome(l2), Outcome(l3)];
    assert [l1, l2, l3, l4][..3] == three;
  }

  /** Accepted, blank, accepted, invalid: both courses load and line 4 is reported. */
  lemma MixedOutcomes(c1: Course, c2: Course)
    ensures LoadedCourses([Accepted(c1), Blank, Accepted(c2), Invalid]) == [c1, c2]
    ensures RejectedLines([Accepted(c1), Blank, Accepted(c2), Invalid]) == [4]
  {
    var none: seq<LineOutcome> := [];
    LoadedSnoc(none, Accepted(c1));
    RejectedSnoc(none, Accepted(c1));
    assert none + [Accepted(c1)] == [Accepted(c1)];
    LoadedSnoc([Accepted(c1)], Blank);
    RejectedSnoc([Accepted(c1)], Blank);
    assert [Accepted(c1)] + [Blank] == [Accepted(c1), Blank];
    LoadedSnoc([Accepted(c1), Blank], Accepted(c2));
    RejectedSnoc([Accepted(c1), Blank], Accepted(c2));
    assert [Accepted(c1), Blank] + [Accepted(c2)] == [Accepted(c1), Blank, Accepted(c2)];
    LoadedSnoc([Accepted(c1), Blank, Accepted(c2)], Invalid);
    RejectedSnoc([Accepted(c1), Blank, Accepted(c2)], Invalid);
    assert [Accepted(c1), Blank, Accepted(c2)] + [Invalid] == [Accepted(c1), Blank, Accepted(c2), Invalid];
  }

  lemma DataStructuresLine()
    ensures Outcome("CS200,Data Structures,CS100") ==
              Accepted(Course("CS200", "Data Structures", ["CS100"]))
  {
    assert "CS200" + "," + "Data Structures" + "," + "CS100" == "CS200,Data Structures,CS100";
    assert NormalKey("CS200") && NormalKey("CS100");
    assert NoEdgeSpace("Data Structures") && CommaFree("Data Structures");
    ThreeFieldLineAccepted("CS200", "Data Structures", "CS100");
  }

  /** A non-blank line with no comma has no title and is reported, whatever whitespace
      surrounds it. */
  lemma NoCommaRejected(line: string)
    requires !AllSpace(line) && CommaFree(line)
    ensures Outcome(line) == Invalid
  {
    TrimmedEmptyIffBlank(line);
    TrimmedIsCore(line);
    var t, i := Trimmed(line), LeadingSpaceCount(line);
    assert forall k :: 0 <= k < |t| ==> t[k] == line[i + k];
    assert CommaFree(t);
    FieldsSingle(t);
  }

  lemma BadLine()
    ensures Outcome("bad_line") == Invalid
  {
    assert !IsSpace("bad_line"[0]) && CommaFree("bad_line");
    NoCommaRejected("bad_line");
  }

  /** The file "CS100,Intro", "", "CS200,Data Structures,CS100", "bad_line": the empty
      line is skipped without a report, two courses load, and line 4 is reported. */
  lemma MixedFileExample()
    ensures var os := Outcomes(["CS100,Intro", "", "CS200,Data Structures,CS100", "bad_line"]);
            LoadedCourses(os) ==
              [Course("CS100", "Intro", []), Course("CS200", "Data Structures", ["CS100"])] &&
            RejectedLines(os) == [4]
  {
    IntroLine();
    assert Outcome("") == Blank;
    DataStructuresLine();
    BadLine();
    FourOutcomes("CS100,Intro", "", "CS200,Data Structures,CS100", "bad_line");
    MixedOutcomes(Course("CS100", "Intro", []), Course("CS200", "Data Structures", ["CS100"]));
  }
}
