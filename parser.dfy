/** Parsing one catalog line `NUMBER,TITLE[,PREREQ...]` into a course. */
module CourseParser {
  import opened Wrappers
  import opened Text
  import opened CourseBst
  import opened SeqFacts

  // ---------------------------------------------------------------------
  // Splitting on commas the way repeated `getline(ss, field, ',')` does on a
  // string stream; `pos` is the stream's read position

  predicate CommaFree(s: string) {
    forall k :: 0 <= k < |s| ==> s[k] != ','
  }

  /** The position of the first comma at or after `pos`, or `|s|` when there is none. */
  function NextComma(s: string, pos: nat): (j: nat)
    requires pos <= |s|
    ensures pos <= j <= |s|
    ensures j < |s| ==> s[j] == ','
    decreases |s| - pos
  {
    if pos == |s| || s[pos] == ',' then pos else NextComma(s, pos + 1)
  }

  /** NextComma passes over no comma. */
  lemma {:induction false} NextCommaSkips(s: string, pos: nat)
    requires pos <= |s|
    ensures CommaFree(s[pos..NextComma(s, pos)])
    decreases |s| - pos
  {
    if pos < |s| && s[pos] != ',' {
      NextCommaSkips(s, pos + 1);
      assert s[pos..NextComma(s, pos)] == [s[pos]] + s[pos + 1..NextComma(s, pos + 1)];
    }
  }

  /** The fields that successive `getline` calls deliver from position `pos` on: each
      call takes the text up to the next comma and consumes the comma; a call that
      starts at the end of the input fails. */
  function FieldsFrom(s: string, pos: nat): seq<string>
    requires pos <= |s|
    decreases |s| - pos
  {
    if pos == |s| then []
    else
      var j := NextComma(s, pos);
      if j == |s| then [s[pos..]] else [s[pos..j]] + FieldsFrom(s, j + 1)
  }

  /** The fields of a whole line. So "" gives no field, and a trailing comma gives no
      extra empty field. */
  function Fields(s: string): seq<string> {
    FieldsFrom(s, 0)
  }

  /** The fields written back with a comma between each two. */
  function Join(fs: seq<string>): string {
    if fs == [] then []
    else if |fs| == 1 then fs[0]
    else fs[0] + [','] + Join(fs[1..])
  }

  /** The number of commas in `s`. */
  function CommaCount(s: string): nat {
    if s == [] then 0 else (if s[0] == ',' then 1 else 0) + CommaCount(s[1..])
  }

  predicate EndsWithComma(s: string) {
    s != [] && s[|s| - 1] == ','
  }

  /** Where the text that the fields cover ends: before a trailing comma, if any. */
  function LineEnd(s: string): nat {
    if EndsWithComma(s) then |s| - 1 else |s|
  }

  /** A comma-free stretch ended by a comma or by the end of the line is what NextComma finds. */
  lemma {:induction false} NextCommaUnique(s: string, pos: nat, n: nat)
    requires pos <= n <= |s|
    requires forall k :: pos <= k < n ==> s[k] != ','
    requires n < |s| ==> s[n] == ','
    ensures n == NextComma(s, pos)
    decreases n - pos
  {
    if pos < n {
      NextCommaUnique(s, pos + 1, n);
    }
  }

  lemma JoinCons(f: string, fs: seq<string>)
    requires fs != []
    ensures Join([f] + fs) == f + [','] + Join(fs)
  {
    assert ([f] + fs)[1..] == fs;
  }

  /** Joining a field that ends at a comma onto fields that rebuild the text after
      that comma rebuilds the whole stretch. */
  lemma JoinAtComma(s: string, a: nat, j: nat, e: nat, rest: seq<string>)
    requires a <= j < e <= |s| && s[j] == ','
    requires rest != [] && Join(rest) == s[j + 1..e]
    ensures Join([s[a..j]] + rest) == s[a..e]
  {
    JoinCons(s[a..j], rest);
    assert s[a..e] == s[a..j] + [','] + s[j + 1..e];
  }

  /** No field contains a comma. */
  lemma {:induction false} FieldsCommaFree(s: string, pos: nat)
    requires pos <= |s|
    ensures forall i :: 0 <= i < |FieldsFrom(s, pos)| ==> CommaFree(FieldsFrom(s, pos)[i])
    decreases |s| - pos
  {
    if pos < |s| {
      NextCommaSkips(s, pos);
      var j := NextComma(s, pos);
      if j < |s| {
        FieldsCommaFree(s, j + 1);
      }
    }
  }

  /** Writing the fields from `pos` on back with commas gives the rest of the line,
      up to a trailing comma. */
  predicate JoinRestores(s: string, pos: nat)
    requires pos < |s|
  {
    Join(FieldsFrom(s, pos)) == s[pos..LineEnd(s)]
  }

  /** Join gives back a line's last field. */
  lemma JoinLastField(s: string, pos: nat)
    requires pos < |s| && NextComma(s, pos) + 1 >= |s|
    ensures JoinRestores(s, pos)
  {
    var j := NextComma(s, pos);
    if j < |s| {
      assert FieldsFrom(s, j + 1) == [];
    } else {
      NextCommaSkips(s, pos);
      assert s[pos..j][|s| - 1 - pos] == s[|s| - 1];
    }
  }

  /** Join gives back a field, the comma after it and the fields after that. */
  lemma JoinInnerField(s: string, pos: nat)
    requires pos < |s| && NextComma(s, pos) + 1 < |s|
    requires JoinRestores(s, NextComma(s, pos) + 1)
    ensures JoinRestores(s, pos)
  {
    var j := NextComma(s, pos);
    JoinAtComma(s, pos, j, LineEnd(s), FieldsFrom(s, j + 1));
  }

  /** Writing the fields back with commas restores the rest of the line, up to the
      trailing comma that the last `getline` call leaves unread. */
  lemma {:induction false} FieldsJoin(s: string, pos: nat)
    requires pos < |s|
    ensures JoinRestores(s, pos)
    decreases |s| - pos
  {
    if NextComma(s, pos) + 1 < |s| {
      FieldsJoin(s, NextComma(s, pos) + 1);
      JoinInnerField(s, pos);
    } else {
      JoinLastField(s, pos);
    }
  }

  /** Splitting a line and joining the fields again gives the line back, without a
      trailing comma. */
  lemma FieldsRoundTrip(s: string)
    ensures Join(Fields(s)) == if EndsWithComma(s) then s[..|s| - 1] else s
  {
    if s != [] {
      FieldsJoin(s, 0);
    }
  }

  /** Text in front of `t` moves every comma of `t` by its length. */
  lemma {:induction false} NextCommaShift(p: string, t: string, k: nat)
    requires k <= |t|
    ensures NextComma(p + t, |p| + k) == |p| + NextComma(t, k)
    decreases |t| - k
  {
    if k < |t| {
      assert (p + t)[|p| + k] == t[k];
      if t[k] != ',' {
        NextCommaShift(p, t, k + 1);
      }
    }
  }

  /** The first field read from inside `t` after text in front of it, and where the
      next read starts. */
  lemma FieldsShiftStep(p: string, t: string, k: nat)
    requires k < |t|
    ensures var j := NextComma(t, k);
            j < |t| ==> FieldsFrom(p + t, |p| + k) == [t[k..j]] + FieldsFrom(p + t, |p| + j + 1)
    ensures var j := NextComma(t, k);
            j == |t| ==> FieldsFrom(p + t, |p| + k) == [t[k..j]]
  {
    var s, i, j := p + t, |p| + k, NextComma(t, k);
    NextCommaShift(p, t, k);
    SliceOfSuffix(p, t, k, j);
    assert NextComma(s, i) == |p| + j && s[i..|p| + j] == t[k..j];
    FieldsFromStep(s, i);
    if j == |t| {
      assert FieldsFrom(s, |p| + j) == [];
    }
  }

  /** Text in front of `t` does not change the fields read from inside `t`. */
  lemma {:induction false} FieldsShift(p: string, t: string, k: nat)
    requires k <= |t|
    ensures FieldsFrom(p + t, |p| + k) == FieldsFrom(t, k)
    decreases |t| - k
  {
    if k < |t| {
      var j := NextComma(t, k);
      FieldsShiftStep(p, t, k);
      FieldsFromStep(t, k);
      if j < |t| {
        assert FieldsFrom(t, k) == [t[k..j]] + FieldsFrom(t, j + 1);
        FieldsShift(p, t, j + 1);
      } else {
        assert FieldsFrom(t, j) == [];
        assert FieldsFrom(t, k) == [t[k..j]];
      }
    }
  }

  /** A comma-free field, a comma and more text: the first field, then the fields of
      the rest. With an empty rest this is the trailing-comma case. */
  lemma FieldsCons(a: string, t: string)
    requires CommaFree(a)
    ensures Fields(a + "," + t) == [a] + Fields(t)
  {
    var p := a + ",";
    var s := p + t;
    NextCommaUnique(s, 0, |a|);
    FieldsFromStep(s, 0);
    assert s[0..|a|] == a;
    FieldsShift(p, t, 0);
  }

  /** A non-empty comma-free line is a single field. */
  lemma FieldsSingle(a: string)
    requires CommaFree(a) && a != []
    ensures Fields(a) == [a]
  {
    NextCommaUnique(a, 0, |a|);
    assert a[0..] == a;
  }

  lemma {:induction false} CommaCountAppend(a: string, b: string)
    ensures CommaCount(a + b) == CommaCount(a) + CommaCount(b)
  {
    if a == [] {
      assert a + b == b;
    } else {
      CommaCountAppend(a[1..], b);
      assert (a + b)[1..] == a[1..] + b;
    }
  }

  lemma {:induction false} CommaFreeCount(a: string)
    requires CommaFree(a)
    ensures CommaCount(a) == 0
  {
    if a != [] {
      CommaFreeCount(a[1..]);
    }
  }

  /** The comma count of the rest of a line, read field by field. */
  lemma CommaCountStep(s: string, pos: nat)
    requires pos < |s|
    ensures var j := NextComma(s, pos);
            CommaCount(s[pos..]) == if j == |s| then 0 else 1 + CommaCount(s[j + 1..])
  {
    var j := NextComma(s, pos);
    NextCommaSkips(s, pos);
    CommaFreeCount(s[pos..j]);
    if j == |s| {
      assert s[pos..] == s[pos..j];
    } else {
      assert s[pos..] == s[pos..j] + ([','] + s[j + 1..]);
      CommaCountAppend(s[pos..j], [','] + s[j + 1..]);
      CommaCountAppend([','], s[j + 1..]);
    }
  }

  /** Each `getline` call delivers one field. */
  lemma FieldsFromLength(s: string, pos: nat)
    requires pos < |s|
    ensures var j := NextComma(s, pos);
            |FieldsFrom(s, pos)| == if j == |s| then 1 else 1 + |FieldsFrom(s, j + 1)|
  {
  }

  /** The rest of a line has one field more than it has commas, less one if the line
      ends in a comma. */
  lemma {:induction false} FieldCount(s: string, pos: nat)
    requires pos < |s|
    ensures |FieldsFrom(s, pos)| == CommaCount(s[pos..]) + (if EndsWithComma(s) then 0 else 1)
    decreases |s| - pos
  {
    var j := NextComma(s, pos);
    CommaCountStep(s, pos);
    FieldsFromLength(s, pos);
    if j == |s| {
      assert !EndsWithComma(s) by {
        NextCommaSkips(s, pos);
        assert s[pos..j][|s| - 1 - pos] == s[|s| - 1];
      }
    } else if j + 1 == |s| {
      assert FieldsFrom(s, j + 1) == [];
      assert CommaCount(s[j + 1..]) == 0 by {
        assert s[j + 1..] == [];
      }
    } else {
      FieldCount(s, j + 1);
    }
  }

  /** `getline` finds a second field exactly when the line has at least two commas, or one
      comma that is not its last character. */
  lemma HasSecondField(s: string)
    ensures |Fields(s)| >= 2 <==> CommaCount(s) >= 2 || (CommaCount(s) == 1 && !EndsWithComma(s))
  {
    if s != [] {
      FieldCount(s, 0);
      assert s[0..] == s;
    }
  }

  // ---------------------------------------------------------------------
  // The parse, as a specification

  /** Prerequisite fields are trimmed and upper-cased; those that trim to nothing are dropped. */
  function CleanPrerequisites(fs: seq<string>): seq<string> {
    if fs == [] then []
    else
      var p := Trimmed(fs[0]);
      (if p == [] then [] else [Upper(p)]) + CleanPrerequisites(fs[1..])
  }

  /** The course a line describes, or None when it lacks a second field or its number
      or title is blank. */
  function ParseSpec(line: string): Option<Course> {
    var fs := Fields(line);
    if |fs| < 2 then None
    else
      var number := Trimmed(fs[0]);
      var title := Trimmed(fs[1]);
      if number == [] || title == [] then None
      else Some(Course(Upper(number), title, CleanPrerequisites(fs[2..])))
  }

  /** A key as the catalog stores it: non-empty, upper case, no edge whitespace, no comma. */
  predicate NormalKey(k: string) {
    k != [] && IsUpperCase(k) && NoEdgeSpace(k) && CommaFree(k)
  }

  /** A course as a successful parse produces it. */
  predicate Normalized(c: Course) {
    NormalKey(c.number) &&
    c.title != [] && NoEdgeSpace(c.title) && CommaFree(c.title) &&
    forall i :: 0 <= i < |c.prerequisites| ==> NormalKey(c.prerequisites[i])
  }

  /** Trimming a comma-free field and upper-casing it gives a comma-free, trimmed,
      upper-case string. */
  lemma NormalizeField(f: string)
    requires CommaFree(f)
    ensures CommaFree(Trimmed(f)) && NoEdgeSpace(Trimmed(f))
    ensures Trimmed(f) != [] ==> NormalKey(Upper(Trimmed(f)))
  {
    TrimmedIsCore(f);
    var t := Trimmed(f);
    var i := LeadingSpaceCount(f);
    assert forall k :: 0 <= k < |t| ==> t[k] == f[i + k];
    UpperIdempotent(t);
    UpperKeepsEdges(t);
  }

  lemma {:induction false} CleanPrerequisitesNormal(fs: seq<string>)
    requires forall i :: 0 <= i < |fs| ==> CommaFree(fs[i])
    ensures var ps := CleanPrerequisites(fs);
            |ps| <= |fs| && forall i :: 0 <= i < |ps| ==> NormalKey(ps[i])
  {
    if fs != [] {
      NormalizeField(fs[0]);
      CleanPrerequisitesNormal(fs[1..]);
    }
  }

  /** Every course a line parses to is normalized. */
  lemma ParsedIsNormalized(line: string)
    ensures ParseSpec(line).Some? ==> Normalized(ParseSpec(line).value)
  {
    var fs := Fields(line);
    FieldsCommaFree(line, 0);
    if |fs| >= 2 {
      NormalizeField(fs[0]);
      NormalizeField(fs[1]);
      CleanPrerequisitesNormal(fs[2..]);
    }
  }

  /** A line is accepted exactly when it has a second field and neither its first nor its
      second field is whitespace only. */
  lemma ParseAcceptance(line: string)
    ensures ParseSpec(line).Some? <==>
              |Fields(line)| >= 2 && !AllSpace(Fields(line)[0]) && !AllSpace(Fields(line)[1])
  {
    var fs := Fields(line);
    if |fs| >= 2 {
      TrimmedEmptyIffBlank(fs[0]);
      TrimmedEmptyIffBlank(fs[1]);
    }
  }

  // ---------------------------------------------------------------------
  // The imperative parse

  /** One `getline(ss, field, ',')` call on the stream positioned at `pos`: fails at the
      end of input, otherwise reads up to the next comma and consumes it. */
  method GetField(line: string, pos: nat) returns (ok: bool, field: string, next: nat)
    requires pos <= |line|
    ensures ok <==> pos < |line|
    ensures ok ==> pos < next <= |line| && FieldsFrom(line, pos) == [field] + FieldsFrom(line, next)
    ensures !ok ==> FieldsFrom(line, pos) == [] && field == [] && next == pos
  {
    ok, field, next := pos < |line|, [], pos;
    if !ok {
      return;
    }
    while next < |line| && line[next] != ','
      invariant pos <= next <= |line|
      invariant forall k :: pos <= k < next ==> line[k] != ','
    {
      next := next + 1;
    }
    NextCommaUnique(line, pos, next);
    FieldsFromStep(line, pos);
    field := line[pos..next];
    if next < |line| {
      next := next + 1;
    }
  }

  /** The first field from `pos` on, then the fields after the comma that ends it. */
  lemma FieldsFromStep(s: string, pos: nat)
    requires pos < |s|
    ensures var j := NextComma(s, pos);
            FieldsFrom(s, pos) == [s[pos..j]] + FieldsFrom(s, if j < |s| then j + 1 else j)
  {
    var j := NextComma(s, pos);
    if j == |s| {
      assert s[pos..] == s[pos..j];
      assert FieldsFrom(s, j) == [];
      assert [s[pos..j]] + [] == [s[pos..j]];
    }
  }

  /** Cleaning a list of prerequisite fields handles its first field, then the rest. */
  lemma CleanPrerequisitesCons(f: string, fs: seq<string>)
    ensures CleanPrerequisites([f] + fs) ==
              (if Trimmed(f) == [] then [] else [Upper(Trimmed(f))]) + CleanPrerequisites(fs)
  {
    assert ([f] + fs)[1..] == fs;
  }

  /** The parse of a line whose first two fields are `number` and `title`. */
  lemma ParseSpecOfFields(line: string, number: string, title: string, rest: seq<string>)
    requires Fields(line) == [number, title] + rest
    ensures ParseSpec(line) ==
              if Trimmed(number) == [] || Trimmed(title) == [] then None
              else Some(Course(Upper(Trimmed(number)), Trimmed(title), CleanPrerequisites(rest)))
  {
    assert Fields(line)[2..] == rest;
  }

  /** The `while (getline(ss, prereq, ','))` loop of `parseCourseLine`: every remaining
      field is trimmed, and the non-blank ones are upper-cased and appended in order. */
  method CollectPrerequisites(line: string, start: nat) returns (prereqs: seq<string>)
    requires start <= |line|
    ensures prereqs == CleanPrerequisites(FieldsFrom(line, start))
  {
    prereqs := [];
    var pos := start;
    var ok := true;
    var prereq: string;
    while true
      invariant pos <= |line|
      invariant prereqs + CleanPrerequisites(FieldsFrom(line, pos)) == CleanPrerequisites(FieldsFrom(line, start))
      decreases |line| - pos
    {
      ghost var done := prereqs;
      ok, prereq, pos := GetField(line, pos);
      if !ok {
        break;
      }
      ghost var cleaned := if Trimmed(prereq) == [] then [] else [Upper(Trimmed(prereq))];
      CleanPrerequisitesCons(prereq, FieldsFrom(line, pos));
      prereq := Trim(prereq);
      if prereq != [] {
        prereq := ToUpperInPlace(prereq);
        prereqs := prereqs + [prereq];
      }
      assert prereqs == done + cleaned;
      ConcatAssoc(done, cleaned, CleanPrerequisites(FieldsFrom(line, pos)));
    }
    assert CleanPrerequisites(FieldsFrom(line, pos)) == [];
    assert prereqs == prereqs + [];
  }

  /** `parseCourseLine`: read the number and the title, trim both and reject a blank one,
      upper-case the number, then collect the remaining non-blank fields upper-cased. */
  method ParseCourseLine(line: string) returns (r: Option<Course>)
    ensures r == ParseSpec(line)
  {
    var ok, number, pos := GetField(line, 0);
    if !ok {
      return None;
    }
    var title;
    ok, title, pos := GetField(line, pos);
    if !ok {
      assert |Fields(line)| == 1;
      return None;
    }
    ParseSpecOfFields(line, number, title, FieldsFrom(line, pos));
    number := Trim(number);
    title := Trim(title);
    if number == [] || title == [] {
      return None;
    }
    number := ToUpperInPlace(number);
    var prereqs := CollectPrerequisites(line, pos);
    r := Some(Course(number, title, prereqs));
  }
}
