/**
 * The text file written by `saveToFile` and read by `loadFromFile`: one line
 * `TYPE|id|name|extra|grades` per student, each ended by a newline.
 *
 * The functions here give the file content for a roster and the roster read back
 * from a file content; the loops that write and read it are in `Rosters`.
 */
module Persistence {
  import opened Options
  import opened Numbers
  import opened Text
  import opened Grades
  import opened Students

  // ---------- saveToFile ----------

  /** The line `saveToFile` writes for one student, without its newline. */
  function FormatLine(s: Student): string {
    s.TypeTag() + "|" + RenderInt(s.id) + "|" + s.name + "|" + s.ExtraInfo() + "|" + Serialize(s.grades)
  }

  /** The lines of a roster, in roster order. */
  function Lines(ss: seq<Student>): (lines: seq<string>)
    ensures |lines| == |ss|
    ensures forall i :: 0 <= i < |ss| ==> lines[i] == FormatLine(ss[i])
  {
    seq(|ss|, i requires 0 <= i < |ss| => FormatLine(ss[i]))
  }

  /** The whole file `saveToFile` writes: every line followed by `'\n'`. */
  function SaveContent(ss: seq<Student>): string {
    Terminate(Lines(ss), '\n')
  }

  // ---------- loadFromFile ----------

  /**
   * The student one line of the file yields, if any: empty lines are skipped, the
   * others are split on `|` and read field by field.
   */
  function ParseLine(line: string): Option<Student> {
    if line == [] then None else ParseFields(Split(line, '|'))
  }

  /**
   * The student read from the `|`-fields of a line: fewer than five fields or an id
   * that does not parse skip the line; the tag "GRD" makes a graduate with the
   * fourth field as thesis, any other tag a plain student; the fifth field is read
   * as the grades, and fields after it are ignored.
   */
  function ParseFields(parts: seq<string>): Option<Student> {
    if |parts| < 5 then None
    else
      match StoI(parts[1])
      case None => None
      case Some(id) =>
        if parts[0] == "GRD" then Some(Graduate(id, parts[2], parts[3], Deserialize(parts[4])))
        else Some(Plain(id, parts[2], Deserialize(parts[4])))
  }

  /** What each line yields, in file order. */
  function LineOutcomes(lines: seq<string>): (outs: seq<Option<Student>>)
    ensures |outs| == |lines|
    ensures forall i :: 0 <= i < |lines| ==> outs[i] == ParseLine(lines[i])
  {
    seq(|lines|, i requires 0 <= i < |lines| => ParseLine(lines[i]))
  }

  /** The students of the outcomes that yielded one, in order. */
  function Present(outs: seq<Option<Student>>): seq<Student>
    decreases |outs|
  {
    if outs == [] then []
    else
      var read := Present(outs[..|outs| - 1]);
      match outs[|outs| - 1]
      case None => read
      case Some(s) => read + [s]
  }

  /** The students read from the lines, in file order. */
  function LoadLines(lines: seq<string>): seq<Student> {
    Present(LineOutcomes(lines))
  }

  /** `loadFromFile` after the file opened: the lines `getline` reads, parsed in order. */
  function LoadContent(content: string): seq<Student> {
    LoadLines(Split(content, '\n'))
  }

  /** What one outcome adds to the students read. */
  function Yield(o: Option<Student>): seq<Student> {
    match o
    case None => []
    case Some(s) => [s]
  }

  /** Reading one more line appends what it yields. */
  lemma LoadLinesStep(lines: seq<string>, i: nat)
    requires i < |lines|
    ensures LoadLines(lines[..i + 1]) == LoadLines(lines[..i]) + Yield(ParseLine(lines[i]))
  {
    var outs := LineOutcomes(lines[..i + 1]);
    assert outs[..i] == LineOutcomes(lines[..i]);
  }

  /** At most one student per outcome, and none exactly when every outcome is empty. */
  lemma {:induction false} PresentLength(outs: seq<Option<Student>>)
    ensures |Present(outs)| <= |outs|
    ensures (forall i :: 0 <= i < |outs| ==> outs[i].None?) <==> Present(outs) == []
    decreases |outs|
  {
    if outs != [] {
      var n := |outs| - 1;
      var p := outs[..n];
      PresentLength(p);
      assert forall i :: 0 <= i < n ==> p[i] == outs[i];
    }
  }

  /** Loading reads at most one student per line, and none exactly when every line is skipped. */
  lemma LoadLinesLength(lines: seq<string>)
    ensures |LoadLines(lines)| <= |lines|
    ensures (forall i :: 0 <= i < |lines| ==> ParseLine(lines[i]).None?) <==> LoadLines(lines) == []
  {
    PresentLength(LineOutcomes(lines));
  }

  // ---------- the line format ----------

  /** A field that cannot break the line format: no `|` and no newline. */
  predicate FieldSafe(x: string) {
    '|' !in x && '\n' !in x
  }

  /**
   * A student whose saved line reads back as the same student: its name and
   * extra field and its subjects hold neither `|` nor a newline, and its subjects
   * survive the grade round trip.
   */
  predicate Storable(s: Student) {
    FieldSafe(s.name) && FieldSafe(s.ExtraInfo())
    && forall i :: 0 <= i < |s.grades| ==> CleanSubject(s.grades[i].subject) && FieldSafe(s.grades[i].subject)
  }

  /** The serialized grades hold a character that no subject holds only if it is `,`, `:`, `-` or a digit. */
  lemma SerializeAvoids(g: GradeMap, c: char)
    requires c != ',' && c != ':' && c != '-' && !IsDigit(c)
    requires forall i :: 0 <= i < |g| ==> c !in g[i].subject
    ensures c !in Serialize(g)
  {
    var ts := EntryTexts(g);
    forall i | 0 <= i < |ts| ensures c !in ts[i] {
      RenderIntAvoids(g[i].grade, c);
    }
    JoinAvoids(ts, ',', c);
  }

  /** Regrouping five fields joined by a delimiter so that the first piece stands apart. */
  lemma RegroupFive(a: string, b: string, c: string, e: string, f: string, d: char)
    ensures a + [d] + b + [d] + c + [d] + e + [d] + f == a + [d] + (b + [d] + (c + [d] + (e + [d] + f)))
  {
    var s4 := e + [d] + f;
    assert a + [d] + b + [d] + c + [d] + e + [d] + f == a + [d] + b + [d] + c + [d] + s4;
    var s3 := c + [d] + s4;
    assert a + [d] + b + [d] + c + [d] + s4 == a + [d] + b + [d] + s3;
    var s2 := b + [d] + s3;
    assert a + [d] + b + [d] + s3 == a + [d] + s2;
  }

  /** Five fields joined by a delimiter split back into the four first and what the last gives. */
  lemma SplitFive(a: string, b: string, c: string, e: string, f: string, d: char)
    requires d !in a && d !in b && d !in c && d !in e && d !in f
    ensures Split(a + [d] + b + [d] + c + [d] + e + [d] + f, d) == [a, b, c, e] + (if f == [] then [] else [f])
  {
    var s4 := e + [d] + f;
    var s3 := c + [d] + s4;
    var s2 := b + [d] + s3;
    var last: seq<string> := if f == [] then [] else [f];
    if f != [] {
      SplitSingle(f, d);
    }
    SplitCons(e, d, f);
    SplitCons(c, d, s4);
    SplitCons(b, d, s3);
    SplitCons(a, d, s2);
    RegroupFive(a, b, c, e, f, d);
    ConsFour(a, b, c, e, last);
  }

  lemma ConsFour<T>(a: T, b: T, c: T, e: T, rest: seq<T>)
    ensures [a] + ([b] + ([c] + ([e] + rest))) == [a, b, c, e] + rest
  {
  }

  /** A storable student's line holds no newline. */
  lemma FormatLineUnbroken(s: Student)
    requires Storable(s)
    ensures '\n' !in FormatLine(s)
  {
    RenderIntAvoids(s.id, '\n');
    SerializeAvoids(s.grades, '\n');
    AvoidsFive(s.TypeTag(), RenderInt(s.id), s.name, s.ExtraInfo(), Serialize(s.grades), '|', '\n');
  }

  /** A character other than the delimiter that no field holds is not in the joined fields. */
  lemma AvoidsFive(a: string, b: string, c: string, e: string, f: string, d: char, x: char)
    requires x != d && x !in a && x !in b && x !in c && x !in e && x !in f
    ensures x !in a + [d] + b + [d] + c + [d] + e + [d] + f
  {
  }

  /** A storable student's line splits into the five written fields, the last dropped when empty. */
  lemma FormatLineFields(s: Student)
    requires Storable(s)
    ensures Split(FormatLine(s), '|')
         == [s.TypeTag(), RenderInt(s.id), s.name, s.ExtraInfo()] + (if s.grades == [] then [] else [Serialize(s.grades)])
  {
    var grades := Serialize(s.grades);
    RenderIntAvoids(s.id, '|');
    SerializeAvoids(s.grades, '|');
    SerializeEmpty(s.grades);
    SplitFive(s.TypeTag(), RenderInt(s.id), s.name, s.ExtraInfo(), grades, '|');
  }

  /**
   * Reading back a saved line: a storable student with at least one grade is read
   * back as itself; one without grades is skipped, because its line ends in `|`
   * and so splits into four fields only.
   */
  lemma ParseFormatLine(s: Student)
    requires Storable(s)
    ensures ParseLine(FormatLine(s)) == if s.grades == [] then None else Some(s)
  {
    FormatLineFields(s);
    if s.grades != [] {
      ParseFieldsOfStudent(s);
    }
  }

  /** The five fields written for a storable student with grades read back as that student. */
  lemma ParseFieldsOfStudent(s: Student)
    requires Storable(s) && s.grades != []
    ensures ParseFields([s.TypeTag(), RenderInt(s.id), s.name, s.ExtraInfo(), Serialize(s.grades)]) == Some(s)
  {
    var g := s.grades;
    StoIRender(s.id);
    DeserializeSerialize(g);
    ParseFieldsRead(s.TypeTag(), RenderInt(s.id), s.name, s.ExtraInfo(), Serialize(g), s.id, g);
  }

  /** Fields whose id parses and whose grades read as `g` give the record of the tag's kind. */
  lemma ParseFieldsRead(tag: string, idText: string, name: string, extra: string, gradesText: string, id: Int32, g: GradeMap)
    requires StoI(idText) == Some(id) && Deserialize(gradesText) == g
    ensures ParseFields([tag, idText, name, extra, gradesText])
         == Some(if tag == "GRD" then Graduate(id, name, extra, g) else Plain(id, name, g))
  {
  }

  // ---------- save then load ----------

  /** The students that have at least one grade, in roster order. */
  function Graded(ss: seq<Student>): (r: seq<Student>)
    ensures |r| <= |ss|
    decreases |ss|
  {
    if ss == [] then []
    else
      var r := Graded(ss[..|ss| - 1]);
      if ss[|ss| - 1].grades == [] then r else r + [ss[|ss| - 1]]
  }

  /** A roster whose every student has a grade is its own graded part. */
  lemma {:induction false} GradedAll(ss: seq<Student>)
    requires forall i :: 0 <= i < |ss| ==> ss[i].grades != []
    ensures Graded(ss) == ss
    decreases |ss|
  {
    if ss != [] {
      var p := ss[..|ss| - 1];
      assert forall i :: 0 <= i < |p| ==> p[i] == ss[i];
      GradedAll(p);
      SeqSnocLast(ss);
    }
  }

  /** What the line of each student yields when read back: the student, if it has grades. */
  function Kept(ss: seq<Student>): (outs: seq<Option<Student>>)
    ensures |outs| == |ss|
    ensures forall i :: 0 <= i < |ss| ==> outs[i] == if ss[i].grades == [] then None else Some(ss[i])
  {
    seq(|ss|, i requires 0 <= i < |ss| => if ss[i].grades == [] then None else Some(ss[i]))
  }

  /** The students kept are the graded ones, in roster order. */
  lemma {:induction false} PresentKept(ss: seq<Student>)
    ensures Present(Kept(ss)) == Graded(ss)
    decreases |ss|
  {
    if ss != [] {
      var n := |ss| - 1;
      var p := ss[..n];
      assert Kept(ss)[..n] == Kept(p);
      PresentKept(p);
    }
  }

  /** Each line of a storable roster yields its student exactly when the student has grades. */
  lemma OutcomesOfLines(ss: seq<Student>)
    requires forall i :: 0 <= i < |ss| ==> Storable(ss[i])
    ensures LineOutcomes(Lines(ss)) == Kept(ss)
  {
    var outs := LineOutcomes(Lines(ss));
    forall i | 0 <= i < |ss| ensures outs[i] == Kept(ss)[i] {
      ParseFormatLine(ss[i]);
    }
  }

  /** Reading the lines of a storable roster gives back its graded students. */
  lemma LoadLinesOfRoster(ss: seq<Student>)
    requires forall i :: 0 <= i < |ss| ==> Storable(ss[i])
    ensures LoadLines(Lines(ss)) == Graded(ss)
  {
    OutcomesOfLines(ss);
    PresentKept(ss);
  }

  /** The saved file splits into exactly one line per student, in roster order. */
  lemma SaveLines(ss: seq<Student>)
    requires forall i :: 0 <= i < |ss| ==> Storable(ss[i])
    ensures Split(SaveContent(ss), '\n') == Lines(ss)
  {
    var lines := Lines(ss);
    forall i | 0 <= i < |lines| ensures '\n' !in lines[i] {
      FormatLineUnbroken(ss[i]);
    }
    SplitTerminate(lines, '\n');
  }

  /**
   * Save then load: the students read back are those of the roster that have
   * grades, in roster order; the students without grades are lost.
   */
  lemma SaveLoad(ss: seq<Student>)
    requires forall i :: 0 <= i < |ss| ==> Storable(ss[i])
    ensures LoadContent(SaveContent(ss)) == Graded(ss)
  {
    SaveLines(ss);
    LoadLinesOfRoster(ss);
  }

  /** Save then load restores a storable roster in which every student has a grade. */
  lemma SaveLoadGraded(ss: seq<Student>)
    requires forall i :: 0 <= i < |ss| ==> Storable(ss[i]) && ss[i].grades != []
    ensures LoadContent(SaveContent(ss)) == ss
  {
    SaveLoad(ss);
    GradedAll(ss);
  }

  // ---------- the skip and kind rules of loadFromFile ----------

  /** A line with four `|`-separated fields and a trailing `|` is skipped. */
  lemma LoadSkipsFourFields(a: string, b: string, c: string, e: string)
    requires '|' !in a && '|' !in b && '|' !in c && '|' !in e
    ensures ParseLine(a + "|" + b + "|" + c + "|" + e + "|") == None
  {
    var line := a + "|" + b + "|" + c + "|" + e + "|";
    assert line == line + "";
    SplitFive(a, b, c, e, "", '|');
  }

  /** A five-field line whose id field does not parse as an `int` is skipped. */
  lemma LoadSkipsBadId(tag: string, idText: string, name: string, extra: string, grades: string)
    requires '|' !in tag && '|' !in idText && '|' !in name && '|' !in extra && '|' !in grades
    requires StoI(idText) == None
    ensures ParseLine(tag + "|" + idText + "|" + name + "|" + extra + "|" + grades) == None
  {
    SplitFive(tag, idText, name, extra, grades, '|');
  }

  /**
   * A five-field line with a readable id: the tag "GRD" gives a graduate whose
   * thesis is the fourth field, any other tag a plain student whose fourth field
   * is dropped; the grades are what the fifth field reads as.
   */
  lemma LoadTagDecidesKind(tag: string, idText: string, name: string, extra: string, grades: string, id: Int32)
    requires '|' !in tag && '|' !in idText && '|' !in name && '|' !in extra && '|' !in grades
    requires grades != [] && StoI(idText) == Some(id)
    ensures ParseLine(tag + "|" + idText + "|" + name + "|" + extra + "|" + grades)
         == Some(if tag == "GRD" then Graduate(id, name, extra, Deserialize(grades))
                 else Plain(id, name, Deserialize(grades)))
  {
    SplitFive(tag, idText, name, extra, grades, '|');
    ParseFieldsRead(tag, idText, name, extra, grades, id, Deserialize(grades));
  }
}
