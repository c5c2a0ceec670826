/** The line loop of `loadDataFileIntoBST`: the file is given as its lines, already
    read, together with whether it could be opened. */
module Loader {
  import opened Wrappers
  import opened Text
  import opened CourseBst
  import opened CourseParser
  import opened SeqFacts

  /** What the loop does with one line of the file. */
  datatype LineOutcome = Blank | Accepted(course: Course) | Invalid

  /** A whitespace-only line is skipped; any other line is trimmed and parsed. */
  function Outcome(line: string): LineOutcome {
    var trimmed := Trimmed(line);
    if trimmed == [] then Blank
    else match ParseSpec(trimmed)
      case Some(c) => Accepted(c)
      case None => Invalid
  }

  /** The outcome of every line, in file order. */
  function Outcomes(lines: seq<string>): (os: seq<LineOutcome>)
    ensures |os| == |lines|
  {
    if lines == [] then [] else Outcomes(lines[..|lines| - 1]) + [Outcome(lines[|lines| - 1])]
  }

  /** The courses of the accepted lines, in file order. */
  function LoadedCourses(os: seq<LineOutcome>): seq<Course> {
    if os == [] then []
    else
      var earlier := LoadedCourses(os[..|os| - 1]);
      match os[|os| - 1]
      case Accepted(c) => earlier + [c]
      case _ => earlier
  }

  /** The 1-based numbers of the lines reported as invalid, in file order. */
  function RejectedLines(os: seq<LineOutcome>): seq<nat> {
    if os == [] then []
    else
      var earlier := RejectedLines(os[..|os| - 1]);
      if os[|os| - 1].Invalid? then earlier + [|os|] else earlier
  }

  /** The catalog that inserting `cs` in order into an empty tree leaves: a later
      course replaces an earlier one with the same number. */
  function Catalog(cs: seq<Course>): map<string, Course> {
    if cs == [] then map[]
    else
      var last := cs[|cs| - 1];
      Catalog(cs[..|cs| - 1])[last.number := last]
  }

  /** The number of lines that are not whitespace only. */
  function NonBlankCount(lines: seq<string>): nat {
    if lines == [] then 0
    else NonBlankCount(lines[..|lines| - 1]) + (if AllSpace(lines[|lines| - 1]) then 0 else 1)
  }

  predicate DistinctNumbers(cs: seq<Course>) {
    forall i, j :: 0 <= i < j < |cs| ==> cs[i].number != cs[j].number
  }

  // ---------------------------------------------------------------------
  // The loop

  /** `loadDataFileIntoBST` after the file is opened and read: nothing happens when the
      open failed; otherwise the tree is cleared, blank lines are skipped, every other
      line is trimmed and parsed, a parsed course is inserted and counted, and the number
      of a line that does not parse is reported. */
  method LoadDataFile(bst: CourseBST, isOpen: bool, lines: seq<string>)
      returns (loaded: nat, rejected: seq<nat>)
    requires bst.Valid()
    modifies bst
    ensures bst.Valid()
    ensures !isOpen ==> loaded == 0 && rejected == [] && bst.root == old(bst.root) && bst.count == old(bst.count)
    ensures isOpen ==> loaded == |LoadedCourses(Outcomes(lines))| && rejected == RejectedLines(Outcomes(lines))
    ensures isOpen ==> bst.Model() == Catalog(LoadedCourses(Outcomes(lines)))
  {
    if !isOpen {
      return 0, [];
    }
    bst.Clear();
    loaded, rejected := 0, [];
    var lineNum := 0;
    while lineNum < |lines|
      invariant lineNum <= |lines|
      invariant bst.Valid()
      invariant loaded == |LoadedCourses(Outcomes(lines[..lineNum]))|
      invariant rejected == RejectedLines(Outcomes(lines[..lineNum]))
      invariant bst.Model() == Catalog(LoadedCourses(Outcomes(lines[..lineNum])))
    {
      var line := lines[lineNum];
      LoadStep(lines, lineNum);
      lineNum := lineNum + 1;
      var trimmed := Trim(line);
      if trimmed == [] {
        continue;
      }
      var c := ParseCourseLine(trimmed);
      if c.Some? {
        bst.Insert(c.value);
        loaded := loaded + 1;
      } else {
        rejected := rejected + [lineNum];
      }
    }
    TakeAll(lines);
  }

  // ---------------------------------------------------------------------
  // Properties of the load

  /** One more outcome adds its course, if it is accepted. */
  lemma LoadedSnoc(os: seq<LineOutcome>, o: LineOutcome)
    ensures LoadedCourses(os + [o]) == LoadedCourses(os) + (if o.Accepted? then [o.course] else [])
  {
    assert (os + [o])[..|os|] == os;
  }

  /** One more outcome adds its 1-based position, if it is invalid. */
  lemma RejectedSnoc(os: seq<LineOutcome>, o: LineOutcome)
    ensures RejectedLines(os + [o]) == RejectedLines(os) + (if o.Invalid? then [|os| + 1] else [])
  {
    assert (os + [o])[..|os|] == os;
  }

  /** One more line extends the outcomes, the loaded courses and the rejected line
      numbers by what that line contributes. */
  lemma LoadStep(lines: seq<string>, n: nat)
    requires n < |lines|
    ensures Outcomes(lines[..n + 1]) == Outcomes(lines[..n]) + [Outcome(lines[n])]
    ensures LoadedCourses(Outcomes(lines[..n + 1])) ==
              LoadedCourses(Outcomes(lines[..n])) +
              (if Outcome(lines[n]).Accepted? then [Outcome(lines[n]).course] else [])
    ensures RejectedLines(Outcomes(lines[..n + 1])) ==
              RejectedLines(Outcomes(lines[..n])) + (if Outcome(lines[n]).Invalid? then [n + 1] else [])
  {
    TakeOneMore(lines, n);
    LoadedSnoc(Outcomes(lines[..n]), Outcome(lines[n]));
    RejectedSnoc(Outcomes(lines[..n]), Outcome(lines[n]));
  }

  /** The outcome recorded for line `i` is that line's outcome. */
  lemma {:induction false} OutcomesAt(lines: seq<string>, i: nat)
    requires i < |lines|
    ensures Outcomes(lines)[i] == Outcome(lines[i])
  {
    if i < |lines| - 1 {
      var init := lines[..|lines| - 1];
      OutcomesAt(init, i);
    }
  }

  /** A line is skipped exactly when it is whitespace only, and rejected exactly when it
      is not and does not parse. */
  lemma OutcomeCases(line: string)
    ensures Outcome(line).Blank? <==> AllSpace(line)
    ensures Outcome(line).Invalid? <==> !AllSpace(line) && ParseSpec(Trimmed(line)).None?
    ensures Outcome(line).Accepted? <==> !AllSpace(line) && ParseSpec(Trimmed(line)).Some?
    ensures Outcome(line).Accepted? ==> Outcome(line).course == ParseSpec(Trimmed(line)).value
  {
    TrimmedEmptyIffBlank(line);
  }

  /** The number of lines that are not blank. */
  function NonBlankOutcomes(os: seq<LineOutcome>): nat {
    if os == [] then 0 else NonBlankOutcomes(os[..|os| - 1]) + (if os[|os| - 1].Blank? then 0 else 1)
  }

  lemma {:induction false} OutcomeAccounting(os: seq<LineOutcome>)
    ensures |LoadedCourses(os)| + |RejectedLines(os)| == NonBlankOutcomes(os)
  {
    if os != [] {
      OutcomeAccounting(os[..|os| - 1]);
    }
  }

  lemma {:induction false} NonBlankCounts(lines: seq<string>)
    ensures NonBlankOutcomes(Outcomes(lines)) == NonBlankCount(lines)
  {
    if lines != [] {
      var init := lines[..|lines| - 1];
      NonBlankCounts(init);
      OutcomeCases(lines[|lines| - 1]);
      assert (Outcomes(init) + [Outcome(lines[|lines| - 1])])[..|init|] == Outcomes(init);
    }
  }

  /** Every line that is not whitespace only is either loaded or reported; blank lines
      are neither. */
  lemma LoadAccounting(lines: seq<string>)
    ensures |LoadedCourses(Outcomes(lines))| + |RejectedLines(Outcomes(lines))| == NonBlankCount(lines)
  {
    OutcomeAccounting(Outcomes(lines));
    NonBlankCounts(lines);
  }

  /** A number is reported exactly when it numbers an invalid line. */
  lemma {:induction false} RejectedOutcomes(os: seq<LineOutcome>)
    ensures forall n :: n in RejectedLines(os) <==> 1 <= n <= |os| && os[n - 1].Invalid?
  {
    if os != [] {
      var init := os[..|os| - 1];
      RejectedOutcomes(init);
      assert forall k :: 0 <= k < |init| ==> os[k] == init[k];
    }
  }

  /** Line `n` (1-based) is not whitespace only and does not parse. */
  predicate ReportedAt(lines: seq<string>, n: nat) {
    1 <= n <= |lines| && !AllSpace(lines[n - 1]) && ParseSpec(Trimmed(lines[n - 1])).None?
  }

  /** A number is reported exactly when it is the number of a line that is not blank
      and does not parse. */
  lemma RejectedLinesExact(lines: seq<string>)
    ensures forall n :: n in RejectedLines(Outcomes(lines)) <==> ReportedAt(lines, n)
  {
    RejectedOutcomes(Outcomes(lines));
    forall n: nat | 1 <= n <= |lines|
      ensures Outcomes(lines)[n - 1].Invalid? <==> ReportedAt(lines, n)
    {
      OutcomesAt(lines, n - 1);
      OutcomeCases(lines[n - 1]);
    }
  }

  /** The reported numbers are strictly increasing and lie between 1 and the line count. */
  lemma {:induction false} RejectedLinesAscending(os: seq<LineOutcome>)
    ensures forall i :: 0 <= i < |RejectedLines(os)| ==> 1 <= RejectedLines(os)[i] <= |os|
    ensures forall i, j :: 0 <= i < j < |RejectedLines(os)| ==> RejectedLines(os)[i] < RejectedLines(os)[j]
  {
    if os != [] {
      var init := os[..|os| - 1];
      RejectedLinesAscending(init);
      if os[|os| - 1].Invalid? {
        assert RejectedLines(os) == RejectedLines(init) + [|os|];
      }
    }
  }

  lemma {:induction false} LoadedFromAccepted(os: seq<LineOutcome>)
    ensures var cs := LoadedCourses(os);
            forall i :: 0 <= i < |cs| ==> exists k :: 0 <= k < |os| && os[k] == Accepted(cs[i])
  {
    if os != [] {
      var init := os[..|os| - 1];
      LoadedFromAccepted(init);
      var cs := LoadedCourses(os);
      forall i | 0 <= i < |cs|
        ensures exists k :: 0 <= k < |os| && os[k] == Accepted(cs[i])
      {
        if i < |LoadedCourses(init)| {
          assert cs[i] == LoadedCourses(init)[i];
          var k :| 0 <= k < |init| && init[k] == Accepted(cs[i]);
          assert os[k] == init[k];
        } else {
          assert os[|os| - 1] == Accepted(cs[i]);
        }
      }
    }
  }

  /** Every loaded course is in the normal form the parser produces. */
  lemma LoadedNormalized(lines: seq<string>)
    ensures var cs := LoadedCourses(Outcomes(lines));
            forall i :: 0 <= i < |cs| ==> Normalized(cs[i])
  {
    var os := Outcomes(lines);
    var cs := LoadedCourses(os);
    LoadedFromAccepted(os);
    forall i | 0 <= i < |cs|
      ensures Normalized(cs[i])
    {
      var k :| 0 <= k < |os| && os[k] == Accepted(cs[i]);
      OutcomesAt(lines, k);
      OutcomeCases(lines[k]);
      ParsedIsNormalized(Trimmed(lines[k]));
    }
  }

  /** A number is in the catalog exactly when some loaded course has it. */
  lemma {:induction false} CatalogKeys(cs: seq<Course>)
    ensures forall k :: k in Catalog(cs) <==> Lists(cs, k)
  {
    if cs != [] {
      var init := cs[..|cs| - 1];
      CatalogKeys(init);
      forall k | Lists(init, k)
        ensures Lists(cs, k)
      {
        var i :| 0 <= i < |init| && init[i].number == k;
        assert cs[i].number == k;
      }
      forall k | Lists(cs, k) && k != cs[|cs| - 1].number
        ensures Lists(init, k)
      {
        var i :| 0 <= i < |cs| && cs[i].number == k;
        assert init[i].number == k;
      }
      assert Lists(cs, cs[|cs| - 1].number);
    }
  }

  /** Last write wins: the catalog holds, for each number, the last course with that number. */
  lemma {:induction false} CatalogLastWins(cs: seq<Course>, i: nat)
    requires i < |cs|
    requires forall j :: i < j < |cs| ==> cs[j].number != cs[i].number
    ensures cs[i].number in Catalog(cs) && Catalog(cs)[cs[i].number] == cs[i]
  {
    if i < |cs| - 1 {
      var init := cs[..|cs| - 1];
      assert init[i] == cs[i];
      CatalogLastWins(init, i);
    }
  }

  /** The catalog holds at most one entry per loaded course, and exactly one each when
      the loaded course numbers are distinct: a duplicate is counted by the loop but does
      not add an entry. */
  lemma {:induction false} CatalogSize(cs: seq<Course>)
    ensures |Catalog(cs)| <= |cs|
    ensures |Catalog(cs)| == |cs| <==> DistinctNumbers(cs)
  {
    if cs != [] {
      var init := cs[..|cs| - 1];
      var last := cs[|cs| - 1];
      CatalogSize(init);
      CatalogKeys(init);
      if DistinctNumbers(cs) {
        assert DistinctNumbers(init) by {
          forall i, j | 0 <= i < j < |init|
            ensures init[i].number != init[j].number
          {
            assert init[i] == cs[i] && init[j] == cs[j];
          }
        }
        forall i | 0 <= i < |init|
          ensures init[i].number != last.number
        {
          assert init[i] == cs[i];
        }
      } else {
        var i, j :| 0 <= i < j < |cs| && cs[i].number == cs[j].number;
        if j == |cs| - 1 {
          assert init[i].number == last.number;
          assert Lists(init, last.number);
        } else {
          assert init[i] == cs[i] && init[j] == cs[j];
          assert !DistinctNumbers(init);
        }
      }
    }
  }

  /** What the returned count means for the tree: the tree ends up with at most `loaded`
      entries, and exactly `loaded` when no course number repeats. */
  lemma LoadedVersusSize(lines: seq<string>)
    ensures var cs := LoadedCourses(Outcomes(lines));
            |Catalog(cs)| <= |cs| && (|Catalog(cs)| == |cs| <==> DistinctNumbers(cs))
  {
    CatalogSize(LoadedCourses(Outcomes(lines)));
  }
}
