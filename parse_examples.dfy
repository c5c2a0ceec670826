/** Worked examples of `parseCourseLine`: a line in the catalog file's format and what
    the parse makes of it. */
module ParseExamples {
  import opened Wrappers
  import opened Text
  import opened CourseBst
  import opened CourseParser

  /** A trailing comma ends the last field without adding an empty one. */
  lemma ExampleFields()
    ensures Fields("cs2, Data ,cs1,") == ["cs2", " Data ", "cs1"]
  {
    var s := "cs2, Data ,cs1,";
    assert NextComma(s, 11) == 14;
    assert FieldsFrom(s, 15) == [];
    assert s[11..14] == "cs1";
    assert FieldsFrom(s, 11) == ["cs1"];
    assert NextComma(s, 4) == 10;
    assert s[4..10] == " Data ";
    assert FieldsFrom(s, 4) == [" Data ", "cs1"];
    assert NextComma(s, 0) == 3;
    assert s[0..3] == "cs2";
  }

  /** Trimming a title with whitespace on both sides. */
  lemma ExampleTrim()
    ensures Trimmed(" Data ") == "Data"
  {
    assert LeadingSpaceCount(" Data ") == 1;
    assert TrailingSpaceCount("Data ") == 1;
  }

  /** Course numbers are upper-cased character by character. */
  lemma ExampleUpper()
    ensures Upper("cs2") == "CS2" && Upper("cs1") == "CS1"
  {
    var a, b := Upper("cs2"), Upper("cs1");
    assert a[0] == 'C' && a[1] == 'S' && a[2] == '2';
    assert b[0] == 'C' && b[1] == 'S' && b[2] == '1';
  }

  /** A lower-case line with padded fields and a trailing comma: the number and the
      prerequisite are upper-cased, the title is trimmed and keeps its case. */
  lemma AcceptedExample()
    ensures ParseSpec("cs2, Data ,cs1,") == Some(Course("CS2", "Data", ["CS1"]))
  {
    ExampleFields();
    ExampleTrim();
    TrimmedFixpoint("cs2");
    TrimmedFixpoint("cs1");
    ExampleUpper();
    assert ["cs1"][1..] == [];
    assert CleanPrerequisites(["cs1"]) == ["CS1"];
  }

  /** A line without a second field is rejected, also when it ends in a comma. */
  lemma MissingTitleRejected()
    ensures ParseSpec("CS100") == None
    ensures ParseSpec("CS100,") == None
  {
    assert CommaFree("CS100");
    FieldsSingle("CS100");
    assert "CS100" + "," + "" == "CS100,";
    FieldsCons("CS100", "");
  }

  /** A line whose number is empty is rejected. */
  lemma BlankNumberRejected()
    ensures ParseSpec(",Data Structures") == None
  {
    assert "" + "," + "Data Structures" == ",Data Structures";
    FieldsCons("", "Data Structures");
  }

  /** A line whose title is only whitespace is rejected. */
  lemma BlankTitleRejected()
    ensures ParseSpec("CS200, ,CS100") == None
  {
    assert "CS200" + "," + " " + "," + "CS100" == "CS200, ,CS100";
    assert CommaFree("CS200") && CommaFree(" ") && CommaFree("CS100");
    ThreeFields("CS200", " ", "CS100");
    assert Trimmed(" ") == [] by {
      assert LeadingSpaceCount(" ") == 1;
    }
  }

  /** A line of just a normal number and a clean title parses to that course with no
      prerequisites. */
  lemma TwoFieldLine(number: string, title: string)
    requires NormalKey(number)
    requires title != [] && NoEdgeSpace(title) && CommaFree(title)
    ensures ParseSpec(number + "," + title) == Some(Course(number, title, []))
  {
    var s := number + "," + title;
    var m := |number|;
    NextCommaUnique(s, 0, m);
    NextCommaUnique(s, m + 1, |s|);
    assert s[0..m] == number;
    assert s[m + 1..] == title;
    assert FieldsFrom(s, m + 1) == [title];
    assert Fields(s) == [s[0..m]] + FieldsFrom(s, m + 1);
    TrimmedFixpoint(number);
    TrimmedFixpoint(title);
    UpperFixpoint(number);
    assert Fields(s)[2..] == [];
  }

  /** Three comma-free fields joined by commas split back into those fields. */
  lemma ThreeFields(a: string, b: string, c: string)
    requires CommaFree(a) && CommaFree(b) && CommaFree(c) && c != []
    ensures Fields(a + "," + b + "," + c) == [a, b, c]
  {
    assert a + "," + b + "," + c == a + "," + (b + "," + c);
    FieldsCons(a, b + "," + c);
    FieldsCons(b, c);
    FieldsSingle(c);
  }

  /** A line of a normal number, a clean title and one normal prerequisite parses to
      that course. */
  lemma ThreeFieldLine(number: string, title: string, p: string)
    requires NormalKey(number) && NormalKey(p)
    requires title != [] && NoEdgeSpace(title) && CommaFree(title)
    ensures ParseSpec(number + "," + title + "," + p) == Some(Course(number, title, [p]))
  {
    var s := number + "," + title + "," + p;
    ThreeFields(number, title, p);
    TrimmedFixpoint(number);
    TrimmedFixpoint(title);
    TrimmedFixpoint(p);
    UpperFixpoint(number);
    UpperFixpoint(p);
    assert Fields(s)[2..] == [p];
    assert [p][1..] == [];
    assert CleanPrerequisites([p]) == [Upper(Trimmed(p))] + CleanPrerequisites([]);
    assert CleanPrerequisites([p]) == [p];
    assert Trimmed(Fields(s)[0]) == number;
    assert Trimmed(Fields(s)[1]) == title;
    assert Upper(number) == number;
  }

  /** Four comma-free fields joined by commas split back into those fields. */
  lemma FourFields(a: string, b: string, c: string, d: string)
    requires CommaFree(a) && CommaFree(b) && CommaFree(c) && CommaFree(d) && d != []
    ensures Fields(a + "," + b + "," + c + "," + d) == [a, b, c, d]
  {
    assert a + "," + b + "," + c + "," + d == a + "," + (b + "," + c + "," + d);
    FieldsCons(a, b + "," + c + "," + d);
    ThreeFields(b, c, d);
  }

  /** A line of a normal number, a clean title and two normal prerequisites parses to
      that course, the prerequisites in line order. */
  lemma FourFieldLine(number: string, title: string, p: string, q: string)
    requires NormalKey(number) && NormalKey(p) && NormalKey(q)
    requires title != [] && NoEdgeSpace(title) && CommaFree(title)
    ensures ParseSpec(number + "," + title + "," + p + "," + q) == Some(Course(number, title, [p, q]))
  {
    var s := number + "," + title + "," + p + "," + q;
    FourFields(number, title, p, q);
    assert Fields(s) == [number, title] + [p, q];
    ParseSpecOfFields(s, number, title, [p, q]);
    TrimmedFixpoint(number);
    TrimmedFixpoint(title);
    TrimmedFixpoint(p);
    TrimmedFixpoint(q);
    UpperFixpoint(number);
    UpperFixpoint(p);
    UpperFixpoint(q);
    CleanPrerequisitesCons(q, []);
    assert [q] + [] == [q];
    CleanPrerequisitesCons(p, [q]);
    assert [p] + [q] == [p, q];
  }

  /** The line format's own example: a course with two prerequisites. */
  lemma SourceExample()
    ensures ParseSpec("CS200,Data Structures,CS100,MATH101") ==
              Some(Course("CS200", "Data Structures", ["CS100", "MATH101"]))
  {
    assert "CS200" + "," + "Data Structures" + "," + "CS100" + "," + "MATH101" ==
           "CS200,Data Structures,CS100,MATH101";
    assert NormalKey("CS200") && NormalKey("CS100") && NormalKey("MATH101");
    assert NoEdgeSpace("Data Structures") && CommaFree("Data Structures");
    FourFieldLine("CS200", "Data Structures", "CS100", "MATH101");
  }
}
