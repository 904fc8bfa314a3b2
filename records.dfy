/** The Student record and its line form, Student.toCsv. */
module Records {
  import opened Wrappers
  import opened Text
  import opened Numbers

  /**
   * One student. The roll number is a boxed Integer and the marks a boxed
   * Double in the source, so either may be null (None); add refuses null
   * marks but takes a null roll number.
   */
  datatype Student = Student(rollNo: Option<Int32>, name: string, email: string, course: string, marks: Option<Decimal>)

  /**
   * The roll number as string concatenation prints it: text that parses back
   * to the number, or "null", which does not parse.
   */
  function RollText(n: Option<Int32>): (r: string)
    ensures n.Some? ==> ParseInt(r) == n
    ensures n.None? ==> r == "null" && ParseInt(r).None?
  {
    match n
    case None =>
      assert !IsDigit("null"[0]);
      "null"
    case Some(v) =>
      ParseShowInt(v);
      ShowInt(v)
  }

  /**
   * The marks as string concatenation prints them: text that parses back to
   * the marks, or "null", which does not parse.
   */
  function MarksText(m: Option<Decimal>): (r: string)
    ensures m.Some? ==> ParseDecimal(r) == m
    ensures m.None? ==> r == "null" && ParseDecimal(r).None?
  {
    match m
    case None =>
      assert Split("null", '.') == ["null"] by {
        SplitJoin(["null"], '.');
      }
      assert !IsDigit("null"[0]);
      "null"
    case Some(d) =>
      ParseShowDecimal(d);
      ShowDecimal(d)
  }

  /** The five fields of the line form, in their fixed order. */
  function CsvFields(s: Student): seq<string> {
    [RollText(s.rollNo), s.name, s.email, s.course, MarksText(s.marks)]
  }

  /** Student.toCsv: roll, name, email, course and marks, each followed by a comma but the last. */
  function ToCsv(s: Student): (r: string)
    ensures r == RollText(s.rollNo) + "," + s.name + "," + s.email + "," + s.course + "," + MarksText(s.marks)
  {
    JoinFive(RollText(s.rollNo), s.name, s.email, s.course, MarksText(s.marks));
    Join(CsvFields(s), ',')
  }

  lemma JoinFive(a: string, b: string, c: string, d: string, e: string)
    ensures Join([a, b, c, d, e], ',') == a + "," + b + "," + c + "," + d + "," + e
  {
    var f := [a, b, c, d, e];
    assert f[4..] == [f[4]] && f[3..][1..] == f[4..] && f[2..][1..] == f[3..] && f[1..][1..] == f[2..];
    assert Join(f[3..], ',') == f[3] + "," + f[4];
    assert Join(f[2..], ',') == f[2] + "," + (f[3] + "," + f[4]);
    assert Join(f[1..], ',') == f[1] + "," + (f[2] + "," + (f[3] + "," + f[4]));
  }

  /** A text field that the line codec carries unchanged: non-empty, already trimmed, comma-free. */
  predicate WellFormedField(f: string) {
    f != [] && Trim(f) == f && ',' !in f
  }

  /** The records the line decoder produces: a roll number, well-formed text fields and present marks. */
  predicate WellFormed(s: Student) {
    s.rollNo.Some? && WellFormedField(s.name) && WellFormedField(s.email) && WellFormedField(s.course) && s.marks.Some?
  }

  /** No line terminator, where readLine would end a line. */
  predicate OneLine(f: string) {
    '\n' !in f && '\r' !in f
  }

  /**
   * The records a save and a load carry unchanged: well-formed, and with no
   * line terminator in a text field, since writeStudents would write such a
   * record as more than one line.
   */
  predicate Savable(s: Student) {
    WellFormed(s) && OneLine(s.name) && OneLine(s.email) && OneLine(s.course)
  }
}
