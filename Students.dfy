/**
 * The two kinds of student record: `Student` and its subclass `GraduateStudent`.
 * They differ only in the thesis title a graduate carries and in what the two
 * virtual members `getType` and `extraInfo` report for the saved file.
 */
module Students {
  import opened Options
  import opened Numbers
  import opened Grades

  datatype Student =
    | Plain(id: Int32, name: string, grades: GradeMap)
    | Graduate(id: Int32, name: string, thesis: string, grades: GradeMap)
  {
    /** `getType`: the tag that opens the student's line in the saved file. */
    function TypeTag(): (tag: string)
      ensures tag == "GRD" <==> this.Graduate?
      ensures tag == "STU" <==> this.Plain?
    {
      if Graduate? then "GRD" else "STU"
    }

    /** `extraInfo`: the thesis title of a graduate, nothing for a plain student. */
    function ExtraInfo(): (extra: string)
      ensures Plain? ==> extra == ""
      ensures Graduate? ==> extra == thesis
    {
      if Graduate? then thesis else ""
    }

    /**
     * `addGrade`: the record with `subject` set to `grade`; the kind, id, name,
     * thesis and every other subject's grade stay as they were.
     */
    function AddGrade(subject: string, grade: Grade): (r: Student)
      ensures r.Plain? == Plain? && r.id == id && r.name == name && r.ExtraInfo() == ExtraInfo()
      ensures Lookup(r.grades, subject) == Some(grade)
      ensures forall k :: k != subject ==> Lookup(r.grades, k) == Lookup(grades, k)
    {
      match this
      case Plain(i, n, g) => Plain(i, n, Insert(g, subject, grade))
      case Graduate(i, n, t, g) => Graduate(i, n, t, Insert(g, subject, grade))
    }
  }

  /** A freshly constructed record: `new Student(name, id)` or `new GraduateStudent(name, id, thesis)`. */
  function NewStudent(graduate: bool, id: Int32, name: string, thesis: string): (s: Student)
    ensures s.Graduate? == graduate && s.id == id && s.name == name && s.grades == []
    ensures graduate ==> s.ExtraInfo() == thesis
  {
    if graduate then Graduate(id, name, thesis, []) else Plain(id, name, [])
  }

  /** Setting a grade twice for the same subject leaves the record the second call alone would give. */
  lemma AddGradeOverwrites(s: Student, subject: string, a: Grade, b: Grade)
    ensures s.AddGrade(subject, a).AddGrade(subject, b) == s.AddGrade(subject, b)
  {
    InsertOverwrites(s.grades, subject, a, b);
  }

  /** Grades for two different subjects can be set in either order. */
  lemma AddGradeCommutes(s: Student, k1: string, v1: Grade, k2: string, v2: Grade)
    requires k1 != k2
    ensures s.AddGrade(k1, v1).AddGrade(k2, v2) == s.AddGrade(k2, v2).AddGrade(k1, v1)
  {
    InsertCommutes(s.grades, k1, v1, k2, v2);
  }
}
