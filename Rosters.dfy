/**
 * The roster (`vector<Student*> students`) and the program functions that work
 * on it: `findIndexById`, the roster update inside `addStudent`, `removeStudent`
 * and `addOrUpdateGrade` once their console input is known, and the loops of
 * `saveToFile` and `loadFromFile`.
 */
module Rosters {
  import opened Options
  import opened Numbers
  import opened Text
  import opened Grades
  import opened Students
  import opened Persistence

  /** The ids of the roster, in roster order. */
  function Ids(ss: seq<Student>): (ids: seq<int>)
    ensures |ids| == |ss|
    ensures forall i :: 0 <= i < |ss| ==> ids[i] == ss[i].id
  {
    seq(|ss|, i requires 0 <= i < |ss| => ss[i].id)
  }

  /** Some student of the roster has the id. */
  predicate HasId(ss: seq<Student>, id: int) {
    id in Ids(ss)
  }

  /** No value occurs twice. */
  predicate Distinct(xs: seq<int>) {
    forall i, j :: 0 <= i < j < |xs| ==> xs[i] != xs[j]
  }

  /** No two students of the roster share an id. */
  predicate UniqueIds(ss: seq<Student>) {
    Distinct(Ids(ss))
  }

  /** The first position of `x`, or -1 when it does not occur. */
  function FirstIndexOf(xs: seq<int>, x: int): (k: int)
    ensures -1 <= k < |xs|
    ensures k == -1 <==> x !in xs
    ensures k != -1 ==> xs[k] == x && x !in xs[..k]
    decreases |xs|
  {
    if xs == [] then -1
    else if xs[0] == x then 0
    else
      var k := FirstIndexOf(xs[1..], x);
      if k == -1 then -1
      else
        assert xs[..k + 1] == [xs[0]] + xs[1..][..k];
        k + 1
  }

  /** What `findIndexById` answers: the first index holding the id, or -1 when there is none. */
  function IndexOfId(ss: seq<Student>, id: int): (k: int)
    ensures -1 <= k < |ss|
    ensures k == -1 <==> !HasId(ss, id)
    ensures k != -1 ==> ss[k].id == id && forall i :: 0 <= i < k ==> ss[i].id != id
  {
    var ids := Ids(ss);
    var k := FirstIndexOf(ids, id);
    assert k != -1 ==> forall i :: 0 <= i < k ==> ids[..k][i] == ss[i].id;
    k
  }

  /** `findIndexById`: scan the roster from the front. */
  method FindIndexById(ss: seq<Student>, id: Int32) returns (idx: int)
    ensures idx == IndexOfId(ss, id)
  {
    var i := 0;
    while i < |ss|
      invariant 0 <= i <= |ss|
      invariant forall j :: 0 <= j < i ==> ss[j].id != id
    {
      if ss[i].id == id {
        return i;
      }
      i := i + 1;
    }
    return -1;
  }

  /** `erase` of the first student with the id, if there is one. */
  function RemoveFirst(ss: seq<Student>, id: int): (r: seq<Student>)
    ensures !HasId(ss, id) ==> r == ss
    ensures HasId(ss, id) ==> |r| == |ss| - 1
    ensures HasId(ss, id) ==> forall i :: 0 <= i < IndexOfId(ss, id) ==> r[i] == ss[i]
    ensures HasId(ss, id) ==> forall i :: IndexOfId(ss, id) <= i < |r| ==> r[i] == ss[i + 1]
  {
    var k := IndexOfId(ss, id);
    if k == -1 then ss else ss[..k] + ss[k + 1..]
  }

  /** `students[idx]->addGrade(subject, grade)` on the first student with the id, if there is one. */
  function SetGrade(ss: seq<Student>, id: int, subject: string, grade: Grade): seq<Student> {
    var k := IndexOfId(ss, id);
    if k == -1 then ss else ss[k := ss[k].AddGrade(subject, grade)]
  }

  /** Appending a value that does not occur keeps the values distinct. */
  lemma AppendDistinct(xs: seq<int>, x: int)
    requires Distinct(xs) && x !in xs
    ensures Distinct(xs + [x])
  {
    var r := xs + [x];
    forall i, j | 0 <= i < j < |r| ensures r[i] != r[j] {
      assert r[i] == xs[i];
      if j < |xs| {
        assert r[j] == xs[j];
      }
    }
  }

  /** Appending a student whose id is not yet present keeps the ids unique and adds that id. */
  lemma AppendKeepsUnique(ss: seq<Student>, s: Student)
    requires UniqueIds(ss) && !HasId(ss, s.id)
    ensures UniqueIds(ss + [s])
    ensures Ids(ss + [s]) == Ids(ss) + [s.id]
  {
    assert Ids(ss + [s]) == Ids(ss) + [s.id];
    AppendDistinct(Ids(ss), s.id);
  }

  /** Erasing position `k` of distinct values keeps them distinct and removes the value at `k`. */
  lemma EraseDistinct(xs: seq<int>, k: int)
    requires Distinct(xs) && 0 <= k < |xs|
    ensures Distinct(xs[..k] + xs[k + 1..])
    ensures xs[k] !in xs[..k] + xs[k + 1..]
  {
    var r := xs[..k] + xs[k + 1..];
    forall i, j | 0 <= i < j < |r| ensures r[i] != r[j] {
      var i', j' := if i < k then i else i + 1, if j < k then j else j + 1;
      assert r[i] == xs[i'] && r[j] == xs[j'];
    }
    forall i | 0 <= i < |r| ensures r[i] != xs[k] {
      var i' := if i < k then i else i + 1;
      assert r[i] == xs[i'];
    }
  }

  /** Erasing position `k` keeps every other value. */
  lemma EraseKeeps(xs: seq<int>, k: int)
    requires 0 <= k < |xs|
    ensures forall x :: x != xs[k] ==> (x in xs[..k] + xs[k + 1..] <==> x in xs)
  {
    var r := xs[..k] + xs[k + 1..];
    forall x | x in xs && x != xs[k] ensures x in r {
      var i :| 0 <= i < |xs| && xs[i] == x;
      if i < k {
        assert r[i] == x;
      } else {
        assert r[i - 1] == x;
      }
    }
  }

  /** The ids after erasing a student are the ids with that position erased. */
  lemma IdsErase(ss: seq<Student>, k: int)
    requires 0 <= k < |ss|
    ensures Ids(ss[..k] + ss[k + 1..]) == Ids(ss)[..k] + Ids(ss)[k + 1..]
  {
    var r := ss[..k] + ss[k + 1..];
    var ids := Ids(ss);
    forall i | 0 <= i < |r| ensures Ids(r)[i] == (ids[..k] + ids[k + 1..])[i] {
      if i < k {
        assert r[i] == ss[i];
      } else {
        assert r[i] == ss[i + 1];
      }
    }
  }

  /** Removing by id from a roster with unique ids leaves unique ids, and the id gone. */
  lemma RemoveFirstUnique(ss: seq<Student>, id: int)
    requires UniqueIds(ss)
    ensures UniqueIds(RemoveFirst(ss, id))
    ensures !HasId(RemoveFirst(ss, id), id)
  {
    var k := IndexOfId(ss, id);
    if k != -1 {
      IdsErase(ss, k);
      EraseDistinct(Ids(ss), k);
    }
  }

  /**
   * Removing by id keeps every other id present and shrinks the roster by one
   * exactly when the id was present.
   */
  lemma RemoveFirstKeepsOthers(ss: seq<Student>, id: int)
    ensures forall other :: other != id ==> (HasId(RemoveFirst(ss, id), other) <==> HasId(ss, other))
    ensures |RemoveFirst(ss, id)| == if HasId(ss, id) then |ss| - 1 else |ss|
  {
    var k := IndexOfId(ss, id);
    if k != -1 {
      IdsErase(ss, k);
      EraseKeeps(Ids(ss), k);
    }
  }

  /** Setting a grade keeps every student's kind, id and name, and so the ids. */
  lemma SetGradeKeepsIds(ss: seq<Student>, id: int, subject: string, grade: Grade)
    ensures Ids(SetGrade(ss, id, subject, grade)) == Ids(ss)
    ensures forall i :: 0 <= i < |ss| ==>
      SetGrade(ss, id, subject, grade)[i].name == ss[i].name
      && SetGrade(ss, id, subject, grade)[i].Plain? == ss[i].Plain?
  {
    var r := SetGrade(ss, id, subject, grade);
    assert forall i :: 0 <= i < |ss| ==> Ids(r)[i] == Ids(ss)[i];
  }

  /** Setting a grade records it for the student with the id, and touches no other student. */
  lemma SetGradeRecords(ss: seq<Student>, id: int, subject: string, grade: Grade)
    requires HasId(ss, id)
    ensures var r := SetGrade(ss, id, subject, grade);
      var k := IndexOfId(ss, id);
      Lookup(r[k].grades, subject) == Some(grade)
      && forall i :: 0 <= i < |ss| && i != k ==> r[i] == ss[i]
  {
  }

  /** `saveToFile`: write one line per student when the file opened; report whether it did. */
  method SaveToFile(ss: seq<Student>, fileOpened: bool) returns (ok: bool, written: string)
    ensures ok == fileOpened
    ensures written == if fileOpened then SaveContent(ss) else ""
  {
    written := "";
    if !fileOpened {
      return false, written;
    }
    var i := 0;
    while i < |ss|
      invariant 0 <= i <= |ss|
      invariant written == Terminate(Lines(ss[..i]), '\n')
    {
      var s := ss[i];
      var grades := SerializeGrades(s.grades);
      var line := s.TypeTag() + "|" + RenderInt(s.id) + "|" + s.name + "|" + s.ExtraInfo() + "|" + grades;
      LinesSnoc(ss, i);
      TerminateSnoc(Lines(ss[..i]), line, '\n');
      written := written + line + "\n";
      i := i + 1;
    }
    assert ss[..|ss|] == ss;
    return true, written;
  }

  /** The lines of a prefix of the roster are that prefix of its lines. */
  lemma LinesPrefix(ss: seq<Student>, n: nat)
    requires n <= |ss|
    ensures Lines(ss[..n]) == Lines(ss)[..n]
  {
    forall j | 0 <= j < n ensures Lines(ss[..n])[j] == Lines(ss)[..n][j] {
      assert ss[..n][j] == ss[j];
    }
  }

  /** The lines of a prefix grow by one line per student. */
  lemma LinesSnoc(ss: seq<Student>, i: nat)
    requires i < |ss|
    ensures Lines(ss[..i + 1]) == Lines(ss[..i]) + [FormatLine(ss[i])]
  {
    LinesPrefix(ss, i + 1);
    LinesPrefix(ss, i);
    SeqPrefixSnoc(Lines(ss), i);
  }

  /** What `loadFromFile` does with one line that `getline` read. */
  method ReadLine(line: string) returns (r: Option<Student>)
    ensures r == ParseLine(line)
  {
    if line == [] {
      return None;
    }
    var parts := SplitByGetline(line, '|');
    if |parts| < 5 {
      return None;
    }
    var id := StoI(parts[1]);
    if id.None? {
      return None;
    }
    var grades := DeserializeGrades(parts[4]);
    if parts[0] == "GRD" {
      r := Some(Graduate(id.value, parts[2], parts[3], grades));
    } else {
      r := Some(Plain(id.value, parts[2], grades));
    }
  }

  class Roster {
    var students: seq<Student>

    constructor()
      ensures students == []
    {
      students := [];
    }

    /**
     * `addStudent` once its input is read: a student with an id already present is
     * refused and the roster kept; otherwise the new record is appended.
     */
    method AddStudent(graduate: bool, name: string, id: Int32, thesis: string) returns (added: bool)
      modifies this
      ensures added <==> !HasId(old(students), id)
      ensures students == if added then old(students) + [NewStudent(graduate, id, name, thesis)] else old(students)
    {
      var idx := FindIndexById(students, id);
      if idx != -1 {
        return false;
      }
      students := students + [NewStudent(graduate, id, name, thesis)];
      return true;
    }

    /** `removeStudent` once its input is read: erase the first student with the id, if any. */
    method RemoveStudent(id: Int32) returns (removed: bool)
      modifies this
      ensures removed <==> HasId(old(students), id)
      ensures students == RemoveFirst(old(students), id)
    {
      var idx := FindIndexById(students, id);
      if idx == -1 {
        return false;
      }
      students := students[..idx] + students[idx + 1..];
      return true;
    }

    /** `addOrUpdateGrade` once its input is read: set the grade on the first student with the id, if any. */
    method AddOrUpdateGrade(id: Int32, subject: string, grade: Grade) returns (found: bool)
      modifies this
      ensures found <==> HasId(old(students), id)
      ensures students == SetGrade(old(students), id, subject, grade)
    {
      var idx := FindIndexById(students, id);
      if idx == -1 {
        return false;
      }
      students := students[idx := students[idx].AddGrade(subject, grade)];
      return true;
    }

    /**
     * `loadFromFile`: when the file did not open the roster is kept; otherwise it
     * is cleared and refilled from the file's lines in order.
     */
    method LoadFromFile(fileOpened: bool, content: string) returns (ok: bool)
      modifies this
      ensures ok == fileOpened
      ensures students == if fileOpened then LoadContent(content) else old(students)
    {
      if !fileOpened {
        return false;
      }
      students := [];
      var lines := SplitByGetline(content, '\n');
      var i := 0;
      while i < |lines|
        invariant 0 <= i <= |lines|
        invariant students == LoadLines(lines[..i])
      {
        LoadLinesStep(lines, i);
        var r := ReadLine(lines[i]);
        if r.Some? {
          students := students + [r.value];
        }
        i := i + 1;
      }
      assert lines[..|lines|] == lines;
      return true;
    }
  }
}
