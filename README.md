# ABCU course catalog: a verified model

This project models the core of the ABCU advising assistant (`ProjectTwo.cpp`). The
program reads a file of course lines of the form `NUMBER,TITLE[,PREREQ...]` and stores the
courses in a binary search tree keyed by course number. It can then list the courses in
key order, or show one course together with the titles of its prerequisites.

The model has these modules:

- `Text` (`text.dfy`): `ltrim`, `rtrim`, `trim` and `to_upper_inplace`.
  - Each is written as a method with the source's loop.
  - Each is proved equal to a specification function (`LTrimmed`, `RTrimmed`, `Trimmed`,
    `Upper`).
  - Lemmas about those functions: idempotence, fixpoints, blank detection, and that
    trimming commutes with upper-casing.
  - Characters stand for the bytes of a `std::string`. `isspace` and `toupper` are those of
    the C locale.
- `CourseBst` (`course_bst.dfy`): the `CourseBST` class.
  - Its fields are `root` (a `Tree` datatype) and `count`.
  - The invariant `Valid()` is "a search tree whose node count is `count`". Its abstract
    value `Model()` is the map from course number to course.
  - `insertRec` is the function `InsertRec`. `Find` is a loop that descends the tree.
    `InOrder` is the traversal sequence.
  - Key order is `std::string`'s `operator<`, written out as `Less`.
- `CourseParser` (`parser.dfy`): `parseCourseLine`.
  - `getline(ss, field, ',')` is modelled on a position in the line: `GetField` as a
    method, `FieldsFrom`/`Fields` as the specification.
  - `ParseCourseLine` is proved equal to the specification `ParseSpec`.
  - Lemmas: the split/join round trip, the field count, exactly which lines are accepted,
    and that every parsed course is normalised.
- `Loader` (`loader.dfy`): the line loop of `loadDataFileIntoBST` as the method
  `LoadDataFile`.
  - The file is given as its sequence of lines plus a flag that says whether it could be
    opened.
  - The method returns the `loaded` count and the numbers of the lines it warned about.
  - It is proved against `Outcomes`, `LoadedCourses`, `RejectedLines` and `Catalog`.
  - Lemmas: accounting (loaded + rejected = non-blank lines), exactly which lines are
    reported, last-write-wins, and the relation between `loaded` and the final tree size.
- `Query` (`query.dfy`): `printCourseInfo` after the key is read, as `CourseInfoOf`.
  - It returns what would be printed as a `CourseInfo` value, and is proved equal to
    `Describe`.
  - Lemmas: the lookup ignores case and edge whitespace of the input, every loaded course
    can be queried back, and prerequisites resolve to titles exactly when loaded.
- `ParseExamples` and `LoadExamples`: worked lines (among them the line format's own
  example at `ProjectTwo.cpp:13`), a file with a repeated number, and a file with a blank
  and a malformed line, all proved against the specification functions.
- `Wrappers` and `SeqFacts`: `Option`, and four generic sequence facts.

Two behaviours of the loader are easy to misread, so the model states them outright.

- `loaded` counts every line that parses. That includes a line whose course number repeats
  an earlier line (`ProjectTwo.cpp:210-213`), so the count can exceed `Size()`.
  - `LoadExamples.DuplicateKeyExample` proves that the lines `CS100,Intro` and
    `CS100,Introduction` give 2 loaded, none reported, and a single catalog entry holding
    "Introduction".
  - `Loader.LoadedVersusSize` states the general relation: `loaded` equals the final tree
    size exactly when no number repeats.
- When the file cannot be opened, the code returns before `Clear()`, so the tree keeps its
  old contents. `LoadDataFile` states that the root and count are unchanged in that case.

## Model

| member | source | states |
|---|---|---|
| Text.ToUpperChar | ProjectTwo.cpp:46 | `toupper` in the C locale: the result is never a lower-case letter; a character changes exactly when it is one, and then becomes the capital at the same place in the alphabet; whitespace is neither created nor destroyed |
| Text.LeadingSpaceCount | ProjectTwo.cpp:30-31 | the count `ltrim` skips is the longest all-whitespace prefix: within the string, all whitespace before it, no whitespace at it |
| Text.TrailingSpaceCount | ProjectTwo.cpp:36-40 | the count `rtrim` drops is the longest all-whitespace suffix, and the character before it is not whitespace |
| Text.LTrim | ProjectTwo.cpp:29-33 | the index loop returns the string without its leading whitespace (`LTrimmed`) |
| Text.RTrim | ProjectTwo.cpp:34-42 | the backward loop, including the empty and all-whitespace cases, returns the string without its trailing whitespace (`RTrimmed`) |
| Text.Trim | ProjectTwo.cpp:43 | `trim` is `rtrim` after `ltrim`: equals `Trimmed` |
| Text.ToUpperInPlace | ProjectTwo.cpp:45-47 | the loop over the characters yields every character passed through `toupper` (`Upper`) |
| Text.TrimmedIsCore | ProjectTwo.cpp:43 | the trimmed string is the slice between an all-whitespace prefix and an all-whitespace suffix, and has no whitespace at either end |
| Text.TrimmedFixpoint | ProjectTwo.cpp:43 | trimming leaves a string unchanged if and only if it has no whitespace at either end |
| Text.TrimIdempotent | ProjectTwo.cpp:43 | trimming twice is trimming once (the load trims a line that the parser trims field by field again) |
| Text.TrimmedEmptyIffBlank | ProjectTwo.cpp:206-207 | a line trims to empty if and only if it is whitespace only, so exactly those lines are skipped |
| Text.UpperIdempotent | ProjectTwo.cpp:45-47 | upper-casing keeps the length, leaves no lower-case letter, and is idempotent (so `Find`'s second upper-casing changes nothing) |
| Text.UpperFixpoint | ProjectTwo.cpp:45-47 | upper-casing leaves a string unchanged if and only if it has no lower-case letter |
| Text.UpperKeepsEdges | ProjectTwo.cpp:45-47 | upper-casing keeps a string free of edge whitespace, and keeps it empty or non-empty |
| Text.UpperSlice | ProjectTwo.cpp:46 | upper-casing works character by character: it commutes with taking a slice |
| Text.LeadingSpaceOfUpper | ProjectTwo.cpp:29-33 | upper-casing does not change how much `ltrim` removes |
| Text.TrailingSpaceOfUpper | ProjectTwo.cpp:34-42 | upper-casing does not change how much `rtrim` removes |
| Text.UpperTrimCommute | ProjectTwo.cpp:249-250 | trimming then upper-casing (as `printCourseInfo` does) equals upper-casing then trimming |
| CourseBst.LessIrreflexive | ProjectTwo.cpp:88 | no key is below itself in `std::string` order |
| CourseBst.LessTransitive | ProjectTwo.cpp:133 | `std::string` order is transitive |
| CourseBst.LessTotal | ProjectTwo.cpp:86-89 | two distinct keys are ordered one way or the other, so the descent's `else` branch means "greater" |
| CourseBst.Contents | ProjectTwo.cpp:121-140 | the catalog a tree holds maps each course number to a course carrying that number |
| CourseBst.SearchLeft | ProjectTwo.cpp:88 | in a search tree, a key below the node's key is present exactly when it is in the left subtree, with the same course |
| CourseBst.SearchRight | ProjectTwo.cpp:89 | in a search tree, a key above the node's key is present exactly when it is in the right subtree, with the same course |
| CourseBst.NodeCountIsSize | ProjectTwo.cpp:108 | a search tree has as many nodes as distinct keys |
| CourseBst.InsertRec | ProjectTwo.cpp:121-140 | `insertRec` keeps the search order, maps the key to the new course (a new node or an overwritten title and prerequisites), reports `inserted` exactly for a new key, and adds a node only then (the left and right descents are the helper lemmas `InsertLeftStep` and `InsertRightStep`) |
| CourseBst.InOrderMembers | ProjectTwo.cpp:142-149 | the traversal visits as many courses as nodes, and each visited course is the catalog entry for its number |
| CourseBst.InOrderAscending | ProjectTwo.cpp:142-149 | the traversal of a search tree is strictly ascending by course number |
| CourseBst.InOrderComplete | ProjectTwo.cpp:142-149 | every course number in the tree is visited by the traversal |
| CourseBst.FindAfterInsert | ProjectTwo.cpp:84-87 | on the catalog map, the upper-cased number of an upper-case key finds the inserted course, which is the lookup `Find` makes after `Insert` |
| CourseBst.InsertThenFind | ProjectTwo.cpp:72-92 | on a new tree object, `insert` followed by `search` for the same number finds the course exactly when the number is already upper case, and then returns that course |
| CourseBst.CourseBST.constructor | ProjectTwo.cpp:68 | a new tree is valid, empty, and has count 0 |
| CourseBst.CourseBST.Insert | ProjectTwo.cpp:72-76 | the tree stays valid, the catalog is updated at the course's number, and the count grows by one exactly when the number was new |
| CourseBst.CourseBST.Find | ProjectTwo.cpp:79-92 | the upper-cased key is found exactly when it is in the catalog, and the result is that entry |
| CourseBst.CourseBST.InOrder | ProjectTwo.cpp:95-98 | the traversal (what `printCourseList` prints) is strictly ascending, lists each catalog entry exactly once, and lists nothing else |
| CourseBst.CourseBST.Clear | ProjectTwo.cpp:101-105 | the tree becomes valid and empty, with count 0 |
| CourseBst.CourseBST.Size | ProjectTwo.cpp:108 | the kept count equals the number of distinct course numbers stored |
| CourseParser.NextComma | ProjectTwo.cpp:161 | the position where `getline(ss, x, ',')` stops is a comma, or the end of the line |
| CourseParser.NextCommaSkips | ProjectTwo.cpp:161 | a field read by `getline` contains no comma |
| CourseParser.NextCommaUnique | ProjectTwo.cpp:161 | the first comma at or after a position is the one `getline` stops at |
| CourseParser.FieldsCommaFree | ProjectTwo.cpp:157-162 | no field of a line contains a comma |
| CourseParser.FieldsJoin | ProjectTwo.cpp:157-162 | the fields from any position, joined with commas, rebuild the rest of the line up to a trailing comma |
| CourseParser.FieldsRoundTrip | ProjectTwo.cpp:157-162 | splitting a line at commas and joining the fields gives the line back, without a trailing comma |
| CourseParser.FieldsCons | ProjectTwo.cpp:161-162 | a comma-free field, a comma and any further text split into that field followed by the fields of the further text; with nothing further this is the trailing-comma case (helpers `NextCommaShift`, `FieldsShiftStep`, `FieldsShift`) |
| CourseParser.FieldsSingle | ProjectTwo.cpp:161-162 | a non-empty line with no comma is a single field |
| CourseParser.FieldCount | ProjectTwo.cpp:161-162 | from any position inside a line (so for every non-empty line), the fields read are one more than the commas left, one fewer if the line ends in a comma (each `getline` call delivers one field: helper `FieldsFromLength`) |
| CourseParser.HasSecondField | ProjectTwo.cpp:161-162 | the second `getline` succeeds exactly when the line has two commas, or one comma that is not last |
| CourseParser.NormalizeField | ProjectTwo.cpp:174-177 | a trimmed field has no edge whitespace or comma, and if non-empty its upper-cased form is a valid key |
| CourseParser.CleanPrerequisitesNormal | ProjectTwo.cpp:171-179 | the prerequisite loop keeps at most one entry per field, and every entry is a valid key |
| CourseParser.ParsedIsNormalized | ProjectTwo.cpp:164-183 | a parsed course has an upper-case trimmed number, a non-empty trimmed title, and normalised prerequisites |
| CourseParser.ParseAcceptance | ProjectTwo.cpp:161-166 | a line is accepted exactly when it has a second field and neither the first nor the second field is whitespace only |
| CourseParser.GetField | ProjectTwo.cpp:161 | one `getline` call fails exactly at the end of the line, and otherwise returns the next field and moves past its comma, so the fields still to read shrink by exactly that field (helper `FieldsFromStep`) |
| CourseParser.CollectPrerequisites | ProjectTwo.cpp:171-179 | the loop collects the trimmed, upper-cased, non-empty remaining fields, in order (helper `CleanPrerequisitesCons`) |
| CourseParser.ParseCourseLine | ProjectTwo.cpp:156-185 | `parseCourseLine` returns exactly the course that `ParseSpec` describes, and fails exactly where it does (helper `ParseSpecOfFields`) |
| Loader.Outcomes | ProjectTwo.cpp:203-204 | there is one outcome per line of the file |
| Loader.LoadDataFile | ProjectTwo.cpp:190-222 | on a failed open: returns 0 and leaves the tree as it was. Otherwise: the tree is cleared and then holds `Catalog` of the accepted courses, `loaded` is the number of accepted lines, and the reported numbers are those of the invalid lines (one line at a time: helpers `LoadStep`, `LoadedSnoc`, `RejectedSnoc`) |
| Loader.LoadStep | ProjectTwo.cpp:203-216 | one more line adds its outcome, its course if accepted, and its 1-based number if invalid |
| Loader.OutcomesAt | ProjectTwo.cpp:203-206 | the outcome recorded for line `i` is that line's own outcome |
| Loader.OutcomeCases | ProjectTwo.cpp:205-216 | a line is skipped exactly when it is whitespace only; it is loaded or reported exactly when its trimmed form does or does not parse |
| Loader.OutcomeAccounting | ProjectTwo.cpp:207-216 | loaded courses plus reported lines equal the non-blank outcomes |
| Loader.NonBlankCounts | ProjectTwo.cpp:205-207 | the non-blank outcomes are the lines that are not whitespace only |
| Loader.LoadAccounting | ProjectTwo.cpp:203-217 | the number of loaded lines plus the number of reported lines equals the number of non-blank lines |
| Loader.RejectedOutcomes | ProjectTwo.cpp:214-216 | a number is reported exactly when it is the 1-based position of an invalid outcome |
| Loader.RejectedLinesExact | ProjectTwo.cpp:214-216 | line `n` is reported exactly when it is not whitespace only and its trimmed form does not parse |
| Loader.RejectedLinesAscending | ProjectTwo.cpp:204-216 | reported line numbers are strictly increasing and between 1 and the number of lines |
| Loader.LoadedFromAccepted | ProjectTwo.cpp:210-212 | every loaded course comes from an accepted line |
| Loader.LoadedNormalized | ProjectTwo.cpp:210-212 | every loaded course is normalised (upper-case trimmed number, trimmed title, normalised prerequisites) |
| Loader.CatalogKeys | ProjectTwo.cpp:211 | a number is in the catalog exactly when some loaded course has it |
| Loader.CatalogLastWins | ProjectTwo.cpp:126-131 | for each number, the catalog holds the last loaded course with that number |
| Loader.CatalogSize | ProjectTwo.cpp:72-76 | the catalog has at most as many entries as courses inserted, and exactly as many if and only if no number repeats |
| Loader.LoadedVersusSize | ProjectTwo.cpp:210-212 | the tree ends up with at most `loaded` entries, and exactly `loaded` if and only if no loaded number repeats |
| Query.ResolvePrerequisites | ProjectTwo.cpp:267-278 | one entry per prerequisite, in stored order, with the prerequisite's number. The title is the catalog title when the upper-cased number is found, and "title not found" otherwise |
| Query.CourseInfoOf | ProjectTwo.cpp:246-278 | trimming, upper-casing, `Find`, and the loop of `Find` calls over the prerequisites give exactly `Describe` of the tree's catalog (helper `ResolveAppend`) |
| Query.DescribeFinds | ProjectTwo.cpp:252-256 | a course is found exactly when the normalised key is in the catalog. A found answer carries that entry and one line per prerequisite. Otherwise it reports the normalised key |
| Query.DescribeNormalizesInput | ProjectTwo.cpp:249-250 | the query gives the same answer for the input, its upper-cased form and its trimmed form |
| Query.DescribeStoredKey | ProjectTwo.cpp:252 | a stored key in normal form is found by itself |
| Query.LoadedCoursesQueryable | ProjectTwo.cpp:252-256 | after a load, every course number in the catalog (everything the list prints) can be queried back by that number |
| Query.PrerequisiteResolution | ProjectTwo.cpp:267-276 | a loaded prerequisite gets the catalog title exactly when a course with that number was loaded, and "title not found" otherwise |
| Query.CatalogMembersLoaded | ProjectTwo.cpp:211 | each catalog entry is one of the loaded courses |
| ParseExamples.ExampleFields | ProjectTwo.cpp:161-173 | `cs2, Data ,cs1,` splits into `cs2`, ` Data `, `cs1`: the trailing comma adds no empty field |
| ParseExamples.ExampleTrim | ProjectTwo.cpp:165 | ` Data ` trims to `Data` |
| ParseExamples.ExampleUpper | ProjectTwo.cpp:169 | `cs2` upper-cases to `CS2` |
| ParseExamples.AcceptedExample | ProjectTwo.cpp:156-185 | `cs2, Data ,cs1,` parses to number `CS2`, title `Data`, prerequisites `[CS1]` |
| ParseExamples.MissingTitleRejected | ProjectTwo.cpp:162 | `CS100` and `CS100,` are rejected: the second `getline` fails |
| ParseExamples.BlankNumberRejected | ProjectTwo.cpp:166 | `,Data Structures` is rejected: the number is empty |
| ParseExamples.BlankTitleRejected | ProjectTwo.cpp:166 | `CS200, ,CS100` is rejected: the title is empty after trimming |
| ParseExamples.TwoFieldLine | ProjectTwo.cpp:156-185 | a line `number,title` with a normal number and a clean title parses to that course with no prerequisites |
| ParseExamples.ThreeFields | ProjectTwo.cpp:161-173 | three comma-free fields, the last one non-empty, joined by commas split back into the same three fields |
| ParseExamples.ThreeFieldLine | ProjectTwo.cpp:156-185 | a line `number,title,prereq` with clean parts parses to that course with that one prerequisite |
| ParseExamples.FourFields | ProjectTwo.cpp:161-173 | four comma-free fields, the last one non-empty, joined by commas split back into the same four fields |
| ParseExamples.FourFieldLine | ProjectTwo.cpp:156-185 | a line `number,title,p,q` with clean parts parses to that course with prerequisites `[p, q]`, in line order |
| ParseExamples.SourceExample | ProjectTwo.cpp:13 | the format's own example `CS200,Data Structures,CS100,MATH101` parses to course `CS200`, title `Data Structures`, prerequisites `[CS100, MATH101]` |
| LoadExamples.TwoFieldLineAccepted | ProjectTwo.cpp:206-212 | such a clean two-field line is accepted by the load unchanged |
| LoadExamples.TwoOutcomes | ProjectTwo.cpp:203-216 | a two-line file has the two lines' outcomes, in order |
| LoadExamples.TwoAccepted | ProjectTwo.cpp:210-216 | two accepted lines load both courses and report nothing |
| LoadExamples.CatalogOfTwo | ProjectTwo.cpp:126-131 | inserting two courses with the same number leaves only the second; with different numbers, both |
| LoadExamples.IntroLine | ProjectTwo.cpp:206-212 | the line `CS100,Intro` is accepted as that course |
| LoadExamples.RepeatedNumber | ProjectTwo.cpp:203-217 | two clean lines with the same number both count as loaded, nothing is reported, and the catalog holds only the course of the later line |
| LoadExamples.DuplicateKeyExample | ProjectTwo.cpp:203-217 | loading `CS100,Intro` then `CS100,Introduction` counts 2 loaded and reports nothing, and the catalog holds only `CS100` with the title `Introduction` |
| LoadExamples.ThreeFieldLineAccepted | ProjectTwo.cpp:206-212 | a clean line with one prerequisite is accepted by the load unchanged |
| LoadExamples.FourOutcomes | ProjectTwo.cpp:203-216 | a four-line file has the four lines' outcomes, in order |
| LoadExamples.MixedOutcomes | ProjectTwo.cpp:203-216 | accepted, blank, accepted, invalid: both courses load, in order, and only line 4 is reported |
| LoadExamples.DataStructuresLine | ProjectTwo.cpp:206-212 | the line `CS200,Data Structures,CS100` is accepted as that course |
| LoadExamples.NoCommaRejected | ProjectTwo.cpp:206-216 | a line that is not whitespace only and has no comma is reported, whatever whitespace surrounds it: after trimming it is one field, so the second `getline` fails |
| LoadExamples.BadLine | ProjectTwo.cpp:214-216 | the line `bad_line` is reported |
| LoadExamples.MixedFileExample | ProjectTwo.cpp:190-222 | the file `CS100,Intro`, an empty line, `CS200,Data Structures,CS100`, `bad_line` loads those two courses in order, skips the empty line without a report, and reports only line 4 |

## Left out

- The menu loop and `main` (`ProjectTwo.cpp:284-360`): console I/O only.
- All console output. The model returns values instead:
  - the "could not open" message;
  - the "Invalid line N skipped" warnings, returned as the sequence of line numbers;
  - the "No valid courses found" warning;
  - the formatted list and course lines.
- Opening the file and reading it with `getline`: the model takes the lines as a
  sequence, plus a flag for whether the open succeeded. Splitting the file into lines at
  newlines is not modelled.
- Reading the query with `cin >> key`. `CourseInfoOf` takes the token as a string. Because
  `cin >>` stops at whitespace, the token has no inner whitespace in the program. The model
  accepts any string.
- The `Size() == 0` guards of `printCourseList` and `printCourseInfo`, which only print a
  message. `CourseInfoOf` is stated for any tree, including an empty one.
- Node allocation, `destroy`, the destructor, and pointer aliasing.
  - The tree is a datatype held in the object's `root` field.
  - `insertRec` overwriting a node's title and prerequisites in place is modelled as
    building the updated tree.
  - Memory reclamation is not modelled.
- The `std::move` calls, which do not change values.
- `size_t` width: counts and line numbers are unbounded naturals. Overflow would need more
  than 2^64 lines.
- Locale: `isspace` and `toupper` are fixed to the C locale on ASCII codes.
- `rtrim`'s `i != string::npos` test is never false when it is reached (the `i == 0` return
  comes first). The model's loop has no such test.
