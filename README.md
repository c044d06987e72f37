# Student Grade Manager — a verified model of its record core

`StudentGradeManager.cpp` is a console program that keeps a roster of students.
A student is either a regular `Student` or a `GraduateStudent` that also carries a
thesis title. Each student has a map from subject to grade. The roster is a
`vector<Student*>` that the menu commands add to, remove from and update, and that
is saved to and loaded from a text file with one line per student:

    TYPE|id|name|extra|subject:grade,subject:grade

This project models the part of the program with real logic and proves what it
does:

- the string helpers `split` (a `getline` loop) and `trim`;
- the grade map: `addGrade`, `serializeGrades`, `deserializeGrades` and `average`;
- the two student kinds with `getType` and `extraInfo`;
- `findIndexById` and the roster updates made by `addStudent`, `removeStudent` and
  `addOrUpdateGrade` once their console input is known;
- the line format written by `saveToFile` and the parsing done by `loadFromFile`.

Modules, in dependency order:

- `Options`: the `Option` type.
- `Numbers`: decimal rendering of integers (`operator<<`), the leading-integer
  parse performed by `stoi`, and the same parse standing in for `stod` (which
  reads a `double`; see "Left out").
- `Text`: `Trim`, `Split` and the `getline` loop `SplitByGetline`, joining and
  newline termination, and the order `operator<` of `std::string`.
- `Grades`: the grade map as the sequence of its entries in ascending subject
  order (the order `std::map` iterates in); `Insert` (`addGrade`), `Average`,
  `Serialize`/`SerializeGrades` and `Deserialize`/`DeserializeGrades`.
- `Students`: the datatype `Student = Plain | Graduate` with `TypeTag`, `ExtraInfo`
  and `AddGrade`.
- `Persistence`: the file content a roster is saved as (`SaveContent`), the roster
  a file content loads as (`LoadContent`), and the save-then-load theorem.
- `Rosters`: `FindIndexById`, `SaveToFile`, the line reader `ReadLine`, and the
  class `Roster` whose `students` field the add, remove, grade and load methods
  update.

Every loop of the modelled core is a method proved against a specification function:
`SplitByGetline` against `Split`, `SerializeGrades` against `Serialize`,
`DeserializeGrades` against `Deserialize`, `Average` against `Mean`,
`FindIndexById` against `IndexOfId`, `SaveToFile` against `SaveContent` and
`Roster.LoadFromFile` against `LoadContent`. The properties are proved about those
functions.

**Save then load is not the identity.** The saved format is meant to round-trip,
but the code does not round-trip every roster, and the model follows the code. A
student without grades is written as `STU|1|Ann||`. `split` drops the final empty
field, so that line has only four fields, and `loadFromFile` skips lines with
fewer than five. In the model, `Persistence.SaveLoad` states the exact outcome:
loading a saved roster gives back its students that have at least one grade, in
roster order. `Persistence.SaveLoadGraded` gives the full round trip when every
student has a grade. Both hold for rosters whose names, thesis titles and subjects
cannot break the format (`Persistence.Storable`): no `|` or newline in any field,
and no `,`, `:` or surrounding blanks in a subject.

**Grades are integers in the model, and rendering and parsing them are exact
inverses there.** This is an assumption of the model. In the program a grade is a
`double`, `<<` prints it with six significant digits, and `stod` reads it back.
So a grade of 1234567 is saved as `1.23457e+06` and read back as 1234570, and
85.1234567 comes back as 85.1235. In the program, `Grades.DeserializeSerialize`,
`Persistence.SaveLoad` and `Persistence.SaveLoadGraded` therefore hold only for
grades that `<<` prints exactly, that is, with at most six significant digits.

## Model

| member | source | states |
|---|---|---|
| Text.FirstNonBlank | StudentGradeManager.cpp:31-32 | the index of the first character outside space/tab/CR/LF, or the length when there is none |
| Text.EndNonBlank | StudentGradeManager.cpp:33 | one past the last non-blank character; everything from there on is blank |
| Text.Trim | StudentGradeManager.cpp:30-35 | the result is no longer than the input; it is empty exactly when the input is all blanks; otherwise neither of its ends is blank |
| Text.TrimIsSlice | StudentGradeManager.cpp:30-35 | any slice with only blanks outside it and non-blank ends is exactly what `trim` returns, so the result is determined by the blanks around it |
| Text.TrimSliceExists | StudentGradeManager.cpp:30-35 | `trim` returns a contiguous slice of its input with only blanks cut off either side |
| Text.TrimUnpadded | StudentGradeManager.cpp:30-35 | a string with no blank at either end is returned unchanged |
| Text.TrimIdempotent | StudentGradeManager.cpp:30-35 | trimming twice is trimming once |
| Text.Split | StudentGradeManager.cpp:20-28 | `split` yields no piece exactly when its input is empty |
| Text.SplitPiecesAvoid | StudentGradeManager.cpp:20-28 | no piece returned by `split` contains the delimiter |
| Text.JoinSplit | StudentGradeManager.cpp:20-28 | joining the pieces with the delimiter gives back the input less one trailing delimiter |
| Text.SplitJoin | StudentGradeManager.cpp:20-28 | splitting pieces joined by the delimiter gives them back when no piece holds it and the last piece is not empty |
| Text.SplitTerminate | StudentGradeManager.cpp:284 | splitting pieces that are each followed by the delimiter gives them all back, empty pieces included (the saved lines read back by `getline`) |
| Text.ScanToDelimiter | StudentGradeManager.cpp:24 | one `getline` stops at the first delimiter at or after the start, or at the end |
| Text.SplitByGetline | StudentGradeManager.cpp:20-28 | the `getline`/`push_back` loop returns exactly the pieces `Split` specifies |
| Text.Less | StudentGradeManager.cpp:55 | the definition of `std::string`'s `operator<`, the key order of `map<string, double>`: character by character, a proper prefix first; `Text.LessIrreflexive`, `Text.LessAsymmetric`, `Text.LessTotal` and `Text.LessTransitive` prove it a strict total order, and `Grades.Insert` keeps the map in it |
| Text.LessIrreflexive | StudentGradeManager.cpp:55 | no string is before itself in `std::string` order |
| Text.LessAsymmetric | StudentGradeManager.cpp:55 | two strings are never each before the other |
| Text.LessTotal | StudentGradeManager.cpp:55 | of two different strings one is before the other |
| Text.LessTransitive | StudentGradeManager.cpp:55 | the order is transitive, so it can order the keys of the grade map |
| Numbers.RenderInt | StudentGradeManager.cpp:269-270 | the text `<<` writes for an integer is non-empty digits with at most a leading minus |
| Numbers.ParseLeadingInt | StudentGradeManager.cpp:291 | text that holds no digit does not parse |
| Numbers.StoI | StudentGradeManager.cpp:291 | `stoi` succeeds exactly when the leading integer parses and fits an `int`, and then returns it |
| Numbers.ParseRender | StudentGradeManager.cpp:93-108 | an integer grade rendered in decimal parses back to itself; this is the model's assumed render/parse inverse, and in the program it holds only for grades `<<` prints exactly (at most six significant digits) |
| Numbers.StoIRender | StudentGradeManager.cpp:291 | an id written by `<<` is read back by `stoi` unchanged |
| Numbers.StoIIgnoresTrailingText | StudentGradeManager.cpp:291 | example: `stoi("12abc")` is 12, showing that text after the digits is ignored |
| Numbers.StoISkipsSpaceAndSign | StudentGradeManager.cpp:291 | example: `stoi(" -7")` is -7, showing that leading white space and a sign are accepted |
| Numbers.StoIRejectsText | StudentGradeManager.cpp:291 | example: `stoi("abc")` fails |
| Numbers.StoD | StudentGradeManager.cpp:108 | the definition: the grade parse, the leading-integer parse of `ParseLeadingInt` standing in for `stod` (see "Left out"); `Numbers.ParseRender` proves it reads back every rendered grade |
| Numbers.StoIRejectsWide | StudentGradeManager.cpp:291 | an integer outside the `int` range is refused |
| Grades.Insert | StudentGradeManager.cpp:77-79 | after `addGrade` the subject maps to the grade, every other subject keeps its grade, and the entries stay in strictly ascending key order |
| Grades.LookupExtensional | StudentGradeManager.cpp:55 | two maps with the same grade for every subject are the same map |
| Grades.InsertOverwrites | StudentGradeManager.cpp:77-79 | setting a subject twice is the same as setting it to the second grade |
| Grades.InsertCommutes | StudentGradeManager.cpp:77-79 | setting two different subjects gives the same map in either order |
| Grades.Mean | StudentGradeManager.cpp:81-82 | the average of an empty map is 0.0 |
| Grades.Average | StudentGradeManager.cpp:81-86 | the summing loop returns the mean: 0.0 when empty, otherwise the sum divided by the number of grades |
| Grades.SumBounds | StudentGradeManager.cpp:83-84 | the sum of grades within bounds lies within the count times those bounds |
| Grades.MeanBounds | StudentGradeManager.cpp:81-86 | the average of a non-empty map lies between its smallest and its largest grade |
| Grades.MeanExample | StudentGradeManager.cpp:83-85 | grades 80 and 90 average to 85 |
| Grades.Serialize | StudentGradeManager.cpp:88-97 | the definition: the `subject:grade` texts of the entries, in ascending subject order, joined by `,`; `Grades.SerializeEmpty`, `Grades.SerializePieces` and `Grades.DeserializeSerialize` prove its properties, `Grades.SerializeGrades` that the loop computes it |
| Grades.SerializeEmpty | StudentGradeManager.cpp:88-97 | `serializeGrades` writes "" exactly for a map without grades |
| Grades.EntryTextSplit | StudentGradeManager.cpp:93-104 | when the subject holds no `:`, one written entry splits on `:` into its subject and its grade text (a subject such as `a:b` is written as `a:b:90` and splits into three pieces) |
| Grades.SerializePieces | StudentGradeManager.cpp:88-97 | when no subject holds `,`, the written text splits on `,` into the `subject:grade` texts, one per entry, in ascending subject order |
| Grades.SerializeGrades | StudentGradeManager.cpp:88-97 | the loop with its `first` flag writes exactly the serialized text |
| Grades.ItemGrade | StudentGradeManager.cpp:104-112 | the definition of one `,`-item: accepted only when it splits on `:` into exactly two pieces whose trimmed second piece parses, stored under the trimmed first piece; `Grades.ItemTrailingColon`, `Grades.ItemMissingGrade` and `Grades.ItemGradeOfEntry` prove its cases |
| Grades.Deserialize | StudentGradeManager.cpp:99-115 | the definition: the empty map for "", otherwise the accepted `,`-items applied in order; `Grades.DeserializeEmpty`, `Grades.AbsorbAbsent`, `Grades.AbsorbLastWins`, `Grades.DeserializeTrimmed` and `Grades.DeserializeSerialize` prove its properties, `Grades.DeserializeGrades` that the loop computes it |
| Grades.AbsorbStep | StudentGradeManager.cpp:103-114 | reading one more item applies what that item yields to the map built so far |
| Grades.DeserializeEmpty | StudentGradeManager.cpp:100-101 | the empty text gives the empty map |
| Grades.CollectAbsent | StudentGradeManager.cpp:103-114 | a subject is absent from the result exactly when no accepted item sets it |
| Grades.AbsorbAbsent | StudentGradeManager.cpp:102-114 | a subject is absent exactly when no `,`-item is accepted under that subject |
| Grades.CollectLastWins | StudentGradeManager.cpp:109 | the last item that sets a subject decides its grade |
| Grades.AbsorbLastWins | StudentGradeManager.cpp:103-109 | a later duplicate subject overwrites an earlier one: the last accepted item naming it decides its grade |
| Grades.DeserializeTrimmed | StudentGradeManager.cpp:106-109 | every subject stored by `deserializeGrades` is already trimmed |
| Grades.ItemTrailingColon | StudentGradeManager.cpp:104-105 | an item `math:90:` splits into two pieces and is read like `math:90` |
| Grades.ItemMissingGrade | StudentGradeManager.cpp:104-105 | an item `math:` splits into one piece and is dropped |
| Grades.ItemGradeOfEntry | StudentGradeManager.cpp:104-109 | the text of an entry with a clean subject reads back as that entry |
| Grades.ParsedEntryTexts | StudentGradeManager.cpp:103-109 | every written entry text of clean subjects is accepted as its entry |
| Grades.CollectAccepted | StudentGradeManager.cpp:103-109 | setting the entries of a map one by one in key order rebuilds the map |
| Grades.DeserializeSerialize | StudentGradeManager.cpp:88-115 | reading back the serialized grades restores the map when no subject holds `,` or `:` or has surrounding blanks (with grades as exact integers; in the program, for grades `<<` prints exactly) |
| Grades.DeserializeGrades | StudentGradeManager.cpp:99-115 | the clear-then-refill loop builds exactly the map `Deserialize` specifies |
| Students.Student.TypeTag | StudentGradeManager.cpp:118-147 | `getType` is "GRD" exactly for a graduate and "STU" exactly for a regular student |
| Students.Student.ExtraInfo | StudentGradeManager.cpp:118-146 | `extraInfo` is "" for a regular student and the thesis title for a graduate |
| Students.Student.AddGrade | StudentGradeManager.cpp:77-79 | the record keeps its kind, id, name and thesis; the subject maps to the grade and every other subject keeps its grade |
| Students.NewStudent | StudentGradeManager.cpp:187-198 | a new record has the requested kind, id, name and thesis and no grades |
| Students.AddGradeOverwrites | StudentGradeManager.cpp:77-79 | setting a subject twice gives the record setting it once to the second grade gives |
| Students.AddGradeCommutes | StudentGradeManager.cpp:77-79 | grades for two different subjects can be set in either order |
| Persistence.FormatLine | StudentGradeManager.cpp:269-270 | the definition of one saved line: type tag, id, name, extra information and serialized grades separated by bars; `Persistence.FormatLineFields`, `Persistence.FormatLineUnbroken` and `Persistence.ParseFormatLine` prove its properties |
| Persistence.SaveContent | StudentGradeManager.cpp:264-273 | the definition of the saved file: every line of `Lines` followed by a newline; `Persistence.SaveLines` and `Persistence.SaveLoad` prove its properties, `Rosters.SaveToFile` that the loop writes it |
| Persistence.ParseLine | StudentGradeManager.cpp:285-288 | the definition of what one line yields: nothing for an empty line, otherwise what its bar-separated fields read as; `Persistence.LoadSkipsFourFields` and `Persistence.ParseFormatLine` prove its properties, `Rosters.ReadLine` that the loop body computes it |
| Persistence.ParseFields | StudentGradeManager.cpp:288-304 | the definition of reading the fields: fewer than five or an id `stoi` refuses give nothing, "GRD" a graduate with the fourth field as thesis, any other tag a plain student, grades from the fifth field; `Persistence.LoadSkipsBadId`, `Persistence.LoadTagDecidesKind` and `Persistence.ParseFieldsRead` prove its cases |
| Persistence.Lines | StudentGradeManager.cpp:267-271 | one line per student, in roster order, each the type tag, id, name, extra information and serialized grades, separated by bars |
| Persistence.LoadContent | StudentGradeManager.cpp:283-305 | the definition of a load: the students the `getline` lines yield, in file order; `Persistence.LoadLinesStep`, `Persistence.LoadLinesLength` and `Persistence.SaveLoad` prove its properties, `Rosters.Roster.LoadFromFile` that the loop computes it |
| Persistence.LineOutcomes | StudentGradeManager.cpp:284-304 | one parse outcome per line read, in file order |
| Persistence.LoadLinesStep | StudentGradeManager.cpp:284-305 | reading one more line appends the student it yields, if any |
| Persistence.PresentLength | StudentGradeManager.cpp:296-303 | at most one student per line, and none exactly when every line is skipped |
| Persistence.LoadLinesLength | StudentGradeManager.cpp:284-305 | loading yields at most one student per line, and none exactly when every line is skipped |
| Persistence.SerializeAvoids | StudentGradeManager.cpp:93 | the grades text holds no character outside subjects, `,`, `:`, `-` and digits |
| Persistence.SplitFive | StudentGradeManager.cpp:286 | five fields joined by the bar split into the first four and the fifth, the fifth lost when empty |
| Persistence.FormatLineUnbroken | StudentGradeManager.cpp:269-270 | the line of a storable student holds no newline |
| Persistence.FormatLineFields | StudentGradeManager.cpp:269-270 | the line of a storable student splits on the bar into tag, id, name and extra, plus the grades text when there are grades |
| Persistence.ParseFieldsRead | StudentGradeManager.cpp:289-304 | five fields with a readable id give the record of the tag's kind with the grades read from the fifth field |
| Persistence.ParseFieldsOfStudent | StudentGradeManager.cpp:289-304 | the five fields written for a storable student with grades read back as that student |
| Persistence.ParseFormatLine | StudentGradeManager.cpp:284-304 | a storable student's line reads back as that student when it has grades, and is skipped when it has none |
| Persistence.Graded | StudentGradeManager.cpp:288 | the definition of the students a save and load keeps: those with at least one grade, in roster order, never more than the roster holds; `Persistence.PresentKept`, `Persistence.LoadLinesOfRoster` and `Persistence.SaveLoad` prove that these are what load returns, and `Persistence.GradedAll` that no one is lost when every student has a grade |
| Persistence.GradedAll | StudentGradeManager.cpp:288 | when every student has a grade, no student is lost |
| Persistence.Kept | StudentGradeManager.cpp:288 | the definition of the expected per-student outcome: the student when it has grades, nothing otherwise; `Persistence.OutcomesOfLines` proves that the saved lines produce exactly these outcomes, and `Persistence.PresentKept` that they keep the `Graded` students |
| Persistence.PresentKept | StudentGradeManager.cpp:296-303 | the students kept are the graded ones, in roster order |
| Persistence.OutcomesOfLines | StudentGradeManager.cpp:264-304 | each saved line of a storable roster yields its student exactly when the student has grades |
| Persistence.LoadLinesOfRoster | StudentGradeManager.cpp:264-305 | reading the saved lines gives the graded students in roster order |
| Persistence.SaveLines | StudentGradeManager.cpp:264-273 | the saved file reads back as exactly one line per student, in roster order |
| Persistence.SaveLoad | StudentGradeManager.cpp:264-307 | loading a saved storable roster gives back exactly its students with grades, in roster order (with grades as exact integers; in the program, for grades `<<` prints exactly) |
| Persistence.SaveLoadGraded | StudentGradeManager.cpp:264-307 | loading a saved storable roster in which every student has a grade gives back the roster (with grades as exact integers; in the program, for grades `<<` prints exactly) |
| Persistence.LoadSkipsFourFields | StudentGradeManager.cpp:286-288 | a line of four fields and a trailing bar (a student saved without grades) is skipped |
| Persistence.LoadSkipsBadId | StudentGradeManager.cpp:290-291 | a five-field line whose id does not parse as an `int` is skipped |
| Persistence.LoadTagDecidesKind | StudentGradeManager.cpp:289-304 | a five-field line with a readable id gives a graduate with the fourth field as thesis when the tag is "GRD", and a regular student otherwise |
| Rosters.Ids | StudentGradeManager.cpp:152-157 | the ids of the roster, one per student, in order |
| Rosters.FirstIndexOf | StudentGradeManager.cpp:152-157 | the first position of a value, or -1 exactly when it does not occur |
| Rosters.IndexOfId | StudentGradeManager.cpp:152-157 | -1 exactly when no student has the id; otherwise the smallest index holding it |
| Rosters.FindIndexById | StudentGradeManager.cpp:152-157 | the index loop returns what `IndexOfId` specifies |
| Rosters.RemoveFirst | StudentGradeManager.cpp:211-217 | an absent id changes nothing; otherwise exactly the student at the found index goes and the others keep their order |
| Rosters.AppendDistinct | StudentGradeManager.cpp:182-198 | appending a value not yet present keeps values distinct |
| Rosters.AppendKeepsUnique | StudentGradeManager.cpp:182-198 | appending a student whose id is absent keeps ids unique and adds that id at the end |
| Rosters.EraseDistinct | StudentGradeManager.cpp:217 | erasing a position of distinct values keeps them distinct and removes the erased value |
| Rosters.EraseKeeps | StudentGradeManager.cpp:217 | erasing a position keeps every other value |
| Rosters.IdsErase | StudentGradeManager.cpp:217 | the ids after `erase` are the ids with that position erased |
| Rosters.RemoveFirstUnique | StudentGradeManager.cpp:211-217 | removing from a roster with unique ids keeps them unique and leaves no student with the id |
| Rosters.RemoveFirstKeepsOthers | StudentGradeManager.cpp:211-217 | removing keeps every other id present and shrinks the roster by one exactly when the id was present |
| Rosters.SetGrade | StudentGradeManager.cpp:231-248 | the definition: the first student with the id gets the grade through `addGrade`, and an absent id changes nothing; `Rosters.SetGradeKeepsIds` and `Rosters.SetGradeRecords` prove its properties |
| Rosters.SetGradeKeepsIds | StudentGradeManager.cpp:231-248 | setting a grade keeps every student's id, name and kind |
| Rosters.SetGradeRecords | StudentGradeManager.cpp:231-248 | setting a grade records it for the student found by id and touches no other student |
| Rosters.SaveToFile | StudentGradeManager.cpp:264-273 | when the file opened, the writing loop writes exactly the saved content and reports success; otherwise nothing is written and it reports failure |
| Rosters.LinesPrefix | StudentGradeManager.cpp:267-271 | the lines of a prefix of the roster are that prefix of its lines |
| Rosters.LinesSnoc | StudentGradeManager.cpp:267-271 | one more student adds one more line at the end |
| Rosters.ReadLine | StudentGradeManager.cpp:285-304 | reading one line step by step yields exactly what `ParseLine` specifies |
| Rosters.Roster.AddStudent | StudentGradeManager.cpp:182-198 | an id already present is refused and the roster is unchanged; otherwise the new record is appended at the end |
| Rosters.Roster.RemoveStudent | StudentGradeManager.cpp:211-217 | reports whether the id was present and leaves the roster with the first student with that id erased |
| Rosters.Roster.AddOrUpdateGrade | StudentGradeManager.cpp:231-248 | reports whether the id was present and sets the grade on the first student with that id |
| Rosters.Roster.LoadFromFile | StudentGradeManager.cpp:275-307 | when the file did not open the roster is kept; otherwise it becomes exactly the students the file's lines yield, in file order, with no duplicate-id check |

## Left out

- Grades are `int`, not `double`. Fractional grades, `ostream <<` rendering of doubles with 6 significant digits, and floating-point rounding in `average` are not modelled. The model assumes that an integer grade renders and parses back exactly (`Numbers.ParseRender`); in the program that holds only for grades with at most six significant digits (1234567 is saved as `1.23457e+06` and read back as 1234570).
- Numbers.StoD: parses only the leading integer of a grade field, so "90.5" reads as 90, and a field with no leading digit such as ".5" is rejected where `stod` accepts it (0.5): the model then drops that item, and `Grades.AbsorbAbsent` reports its subject absent. A grade whose value overflows a `double` (a 400-digit integer, say) makes `stod` throw `out_of_range`, and the program drops that item; `StoD` keeps it. The exponent, hexadecimal, `inf` and `nan` forms of `stod` are not modelled either.
- Numbers.StoI: base 10 only, white space as in the C locale; the `invalid_argument` and `out_of_range` exceptions both become `None`.
- Grades.Average: computes the mean in exact real arithmetic, not with `double` rounding; only the empty case (0.0) is guaranteed to match; a non-empty mean matches when the `double` sum and division are exact (as for 80 and 90).
- Students.Student.AddGrade: a record is a value, so `students[idx]->addGrade(...)` is modelled as replacing the roster element; pointer aliasing is not modelled.
- Console I/O is not modelled: the prompts, the `cin` retry loops of `addStudent`, `removeStudent` and `addOrUpdateGrade`, and the `main` menu loop. The methods of `Roster` take the values those loops would have read.
- `displayInfo`, `displayAll` and `showPassFail` are console output and a floating-point comparison; they are not modelled.
- Opening the file is a boolean parameter of `SaveToFile` and `LoadFromFile`; the file content is a string parameter or result.
- `new`/`delete` are not modelled; students are values in a sequence.
- `static_cast<int>(i)` in `findIndexById` is not modelled as a conversion: the roster is assumed to hold fewer than 2^31 students.
- Strings are sequences of Unicode characters, while `std::string` holds bytes. For UTF-8 text the behaviour agrees: the delimiters and blanks are ASCII, and UTF-8 byte order is code-point order, which is the order `char_traits<char>::lt` gives by comparing bytes as `unsigned char`. Byte strings that are not valid UTF-8 cannot be represented.
- `getId` and `getName` are the datatype's `id` and `name` fields.
