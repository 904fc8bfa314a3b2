/**
 * FileUtil: the student file codec (readStudents / writeStudents) and the
 * clamping arithmetic of readRandom. A file is modelled by its content: a
 * sequence of text lines for the codec, a sequence of bytes for readRandom,
 * and None when it does not exist.
 */
module FileUtil {
  import opened Wrappers
  import opened Text
  import opened Numbers
  import opened Records
  import opened Seqs

  // ------------------------------------------------------------- decoding

  /**
   * The per-line rule of readStudents: a line is kept only if it splits on
   * ',' into exactly five fields (empty fields included) whose trimmed first
   * field parses as an int, trimmed fifth field parses as a number, and trimmed
   * other fields are non-empty; the record holds those parsed and trimmed fields.
   */
  function DecodeLine(line: string): (r: Option<Student>)
    ensures var parts := Split(line, ',');
      r.Some? <==> |parts| == 5 && ParseInt(Trim(parts[0])).Some? && ParseDecimal(Trim(parts[4])).Some?
                   && Trim(parts[1]) != [] && Trim(parts[2]) != [] && Trim(parts[3]) != []
    ensures var parts := Split(line, ',');
      r.Some? ==> r.value == Student(Some(ParseInt(Trim(parts[0])).value), Trim(parts[1]), Trim(parts[2]),
                                     Trim(parts[3]), ParseDecimal(Trim(parts[4])))
    ensures r.Some? ==> WellFormed(r.value)
  {
    DecodeFields(Split(line, ','))
  }

  /**
   * The record five comma-free fields make: the trimmed first field must parse
   * as an int, the trimmed fifth as a number, and the trimmed name, email and
   * course must be non-empty. The record holds the trimmed fields.
   */
  function DecodeFields(parts: seq<string>): (r: Option<Student>)
    requires forall f :: f in parts ==> ',' !in f
    ensures r.Some? <==> |parts| == 5 && ParseInt(Trim(parts[0])).Some? && ParseDecimal(Trim(parts[4])).Some?
                         && Trim(parts[1]) != [] && Trim(parts[2]) != [] && Trim(parts[3]) != []
    ensures r.Some? ==> r.value == Student(Some(ParseInt(Trim(parts[0])).value), Trim(parts[1]), Trim(parts[2]),
                                           Trim(parts[3]), ParseDecimal(Trim(parts[4])))
    ensures r.Some? ==> WellFormed(r.value)
  {
    if |parts| != 5 then None
    else
      var roll := ParseInt(Trim(parts[0]));
      var name, email, course := Trim(parts[1]), Trim(parts[2]), Trim(parts[3]);
      var marks := ParseDecimal(Trim(parts[4]));
      if roll.None? || marks.None? then None
      else if name == [] || email == [] || course == [] then None
      else
        assert parts[1] in parts && parts[2] in parts && parts[3] in parts;
        TrimFieldIsWellFormed(parts[1]);
        TrimFieldIsWellFormed(parts[2]);
        TrimFieldIsWellFormed(parts[3]);
        Some(Student(Some(roll.value), name, email, course, marks))
  }

  lemma TrimFieldIsWellFormed(f: string)
    requires ',' !in f && Trim(f) != []
    ensures WellFormedField(Trim(f))
  {
    TrimIdempotent(f);
    if ',' in Trim(f) {
      TrimKeeps(f, ',');
    }
  }

  /** The records of a file's lines, in file order; lines that do not decode are skipped. */
  function DecodeAll(lines: seq<string>): (r: seq<Student>)
    ensures |r| <= |lines|
  {
    FilterMap(DecodeLine, lines)
  }

  /** Every loaded record is well-formed and is the decoding of one of the file's lines. */
  lemma DecodeAllWellFormed(lines: seq<string>, s: Student)
    requires s in DecodeAll(lines)
    ensures WellFormed(s)
    ensures exists i :: 0 <= i < |lines| && DecodeLine(lines[i]) == Some(s)
  {
    FilterMapOrigin(DecodeLine, lines, s);
  }

  /**
   * readStudents on a file's content: each line decoded in file order, the
   * kept records accumulated; a missing file reads as no records.
   */
  method ReadStudents(file: Option<seq<string>>) returns (list: seq<Student>)
    ensures list == if file.None? then [] else DecodeAll(file.value)
  {
    list := [];
    if file.None? {
      return;
    }
    var lines := file.value;
    assert lines[..|lines|] == lines;
    for i := 0 to |lines|
      invariant list == DecodeAll(lines[..i])
    {
      FilterMapPrefix(DecodeLine, lines, i);
      var outcome := DecodeLine(lines[i]);
      if outcome.Some? {
        list := list + [outcome.value];
      }
    }
  }

  /** Decoding distributes over concatenation: records keep file order. */
  lemma DecodeAllAppend(a: seq<string>, b: seq<string>)
    ensures DecodeAll(a + b) == DecodeAll(a) + DecodeAll(b)
  {
    FilterMapAppend(DecodeLine, a, b);
  }

  // ------------------------------------------------------------- encoding

  /** The lines writeStudents writes: one toCsv line per record, in roster order. */
  function EncodeAll(students: seq<Student>): (lines: seq<string>)
    ensures |lines| == |students|
    ensures forall i :: 0 <= i < |students| ==> lines[i] == ToCsv(students[i])
  {
    Map(ToCsv, students)
  }

  /** writeStudents: the file is overwritten with one line per record. */
  method WriteStudents(students: seq<Student>) returns (lines: seq<string>)
    ensures lines == EncodeAll(students)
  {
    lines := [];
    assert students[..|students|] == students;
    for i := 0 to |students|
      invariant lines == EncodeAll(students[..i])
    {
      MapPrefix(ToCsv, students, i);
      lines := lines + [ToCsv(students[i])];
    }
  }

  // ------------------------------------------------------------ round trip

  /** The fields of a well-formed record's line are comma-free. */
  lemma CsvFieldsPlain(s: Student)
    requires WellFormed(s)
    ensures forall f :: f in CsvFields(s) ==> ',' !in f
  {
    var roll, marks := ShowInt(s.rollNo.value), ShowDecimal(s.marks.value);
    NumeralIsPlain(marks);
    assert ',' !in roll && ',' !in marks;
    assert CsvFields(s) == [roll, s.name, s.email, s.course, marks];
  }

  /** The fields of a well-formed record decode back to the record. */
  lemma DecodeCsvFields(s: Student)
    requires WellFormed(s) && forall f :: f in CsvFields(s) ==> ',' !in f
    ensures DecodeFields(CsvFields(s)) == Some(s)
  {
    var roll, marks := ShowInt(s.rollNo.value), ShowDecimal(s.marks.value);
    TrimFixedPoint(roll);
    TrimFixedPoint(marks);
    ParseShowInt(s.rollNo.value);
    ParseShowDecimal(s.marks.value);
  }

  /** A well-formed record survives toCsv followed by the line decoder. */
  lemma DecodeToCsv(s: Student)
    requires WellFormed(s)
    ensures DecodeLine(ToCsv(s)) == Some(s)
  {
    CsvFieldsPlain(s);
    SplitJoin(CsvFields(s), ',');
    DecodeCsvFields(s);
  }

  /**
   * Saving a roster of savable records and loading it back gives the same
   * roster. (Over lines, well-formed would do; the line terminators that
   * Savable also excludes would make readLine cut a record's line apart.)
   */
  lemma DecodeEncodeAll(students: seq<Student>)
    requires forall s :: s in students ==> Savable(s)
    ensures DecodeAll(EncodeAll(students)) == students
  {
    forall s | s in students
      ensures DecodeLine(ToCsv(s)) == Some(s)
    {
      DecodeToCsv(s);
    }
    FilterMapInverse(DecodeLine, ToCsv, students);
  }

  /**
   * A record without a roll number is saved with "null" in front, which does
   * not parse as an int, so the next load drops it, whatever its other fields.
   */
  lemma UnnumberedIsLost(s: Student)
    requires s.rollNo.None?
    ensures DecodeLine(ToCsv(s)) == None
  {
    var roll, rest := RollText(s.rollNo), s.name + "," + s.email + "," + s.course + "," + MarksText(s.marks);
    RegroupAfterFirst(roll, s.name, s.email, s.course, MarksText(s.marks));
    assert roll == "null";
    assert ',' !in roll;
    TrimFixedPoint(roll);
    assert ParseInt(Trim(roll)).None?;
    assert ToCsv(s) == roll + [','] + rest;
    RollRejected(ToCsv(s), roll, rest);
  }

  lemma RegroupAfterFirst(a: string, b: string, c: string, d: string, e: string)
    ensures a + "," + b + "," + c + "," + d + "," + e == a + [','] + (b + "," + c + "," + d + "," + e)
  {
  }

  /** A line whose first field does not parse as an int after trimming is dropped. */
  lemma RollRejected(line: string, head: string, rest: string)
    requires ',' !in head && line == head + [','] + rest && ParseInt(Trim(head)).None?
    ensures DecodeLine(line) == None
  {
    SplitJoinStep(head, rest, ',');
  }

  /**
   * Whatever a load produced from lines as readLine returns them (none holds
   * a line terminator), saving it and loading again produces the same records.
   */
  lemma ReloadIsStable(lines: seq<string>)
    requires forall l :: l in lines ==> OneLine(l)
    ensures DecodeAll(EncodeAll(DecodeAll(lines))) == DecodeAll(lines)
  {
    forall s | s in DecodeAll(lines)
      ensures Savable(s)
    {
      DecodeAllWellFormed(lines, s);
      var i :| 0 <= i < |lines| && DecodeLine(lines[i]) == Some(s);
      DecodedIsSavable(lines[i]);
    }
    DecodeEncodeAll(DecodeAll(lines));
  }

  /** A line without line terminators decodes, if at all, to a savable record. */
  lemma DecodedIsSavable(line: string)
    requires OneLine(line)
    ensures DecodeLine(line).Some? ==> Savable(DecodeLine(line).value)
  {
    var parts := Split(line, ',');
    if DecodeLine(line).Some? {
      SplitKeeps(line, ',', '\n');
      SplitKeeps(line, ',', '\r');
      forall i | 1 <= i <= 3
        ensures OneLine(Trim(parts[i]))
      {
        assert parts[i] in parts;
        if '\n' in Trim(parts[i]) {
          TrimKeeps(parts[i], '\n');
        }
        if '\r' in Trim(parts[i]) {
          TrimKeeps(parts[i], '\r');
        }
      }
    }
  }

  /**
   * A record with a line terminator in a text field is saved as a line that
   * holds one, which the next load reads as more than one line.
   */
  lemma BrokenFieldBreaksLine(s: Student)
    requires !OneLine(s.name) || !OneLine(s.email) || !OneLine(s.course)
    ensures !OneLine(ToCsv(s))
  {
    var c := if !OneLine(s.name) then (if '\n' in s.name then '\n' else '\r')
             else if !OneLine(s.email) then (if '\n' in s.email then '\n' else '\r')
             else if '\n' in s.course then '\n' else '\r';
    var line := ToCsv(s);
    var head := RollText(s.rollNo) + ",";
    assert line == head + s.name + "," + s.email + "," + s.course + "," + MarksText(s.marks);
    if c in s.name {
      assert c in head + s.name;
    } else if c in s.email {
      assert c in head + s.name + "," + s.email;
    } else {
      assert c in head + s.name + "," + s.email + "," + s.course;
    }
  }

  // ------------------------------------------------------------ readRandom

  function Min(a: int, b: int): int { if a <= b then a else b }

  function Max(a: int, b: int): int { if a >= b then a else b }

  function Distance(a: int, b: int): nat { if a <= b then b - a else a - b }

  /**
   * readRandom's two clamping steps: a negative position to 0, one past the
   * end to the end; that is, the offset in the file nearest to position.
   */
  function ClampPosition(position: Int64, fileLength: nat): (r: nat)
    ensures r <= fileLength
    ensures forall q :: 0 <= q <= fileLength ==> Distance(r, position) <= Distance(q, position)
  {
    if position < 0 then 0 else if position > fileLength then fileLength else position
  }

  /**
   * The buffer size readRandom computes, as written: the remaining byte count
   * is a long that goes through an (int) cast before it meets length.
   */
  function ReadCountAsWritten(fileLength: nat, position: Int64, length: Int32): (r: int)
    ensures 0 <= r <= Max(0, length)
    ensures ClampPosition(position, fileLength) + r <= fileLength
  {
    var p := ClampPosition(position, fileLength);
    Max(0, Min(length, ToInt32(fileLength - p)))
  }

  /**
   * The buffer size readRandom means to compute: the requested length, never
   * negative, cut to the bytes that remain after the clamped position.
   */
  function ReadCount(fileLength: nat, position: Int64, length: Int32): (n: nat)
    ensures ClampPosition(position, fileLength) + n <= fileLength
    ensures n <= Max(0, length)
    ensures n == Max(0, length) || ClampPosition(position, fileLength) + n == fileLength
  {
    var p := ClampPosition(position, fileLength);
    Max(0, Min(length, fileLength - p))
  }

  /** While fewer than 2^31 bytes remain, the cast is harmless and both counts agree. */
  lemma ReadCountAsWrittenBelow2GiB(fileLength: nat, position: Int64, length: Int32)
    requires fileLength - ClampPosition(position, fileLength) < 0x8000_0000
    ensures ReadCountAsWritten(fileLength, position, length) == ReadCount(fileLength, position, length)
  {
  }

  /**
   * With 2^32 bytes remaining the cast yields 0, so a read of 10 bytes at
   * position 0 of a 4 GiB file returns nothing instead of 10 bytes.
   */
  lemma ReadCountAsWrittenFailsAt4GiB()
    ensures ReadCountAsWritten(0x1_0000_0000, 0, 10) == 0
    ensures ReadCount(0x1_0000_0000, 0, 10) == 10
  {
  }

  /**
   * readRandom on a file's bytes: the bytes from the clamped position, as many
   * as the (corrected) count allows; a missing file reads as nothing.
   */
  function ReadRandom(file: Option<seq<bv8>>, position: Int64, length: Int32): (r: seq<bv8>)
    ensures |r| == if file.None? then 0 else ReadCount(|file.value|, position, length)
  {
    match file
    case None => []
    case Some(bytes) =>
      var p := ClampPosition(position, |bytes|);
      bytes[p..p + ReadCount(|bytes|, position, length)]
  }

  /**
   * What readRandom returns lies inside the file: nothing for a missing file,
   * otherwise consecutive bytes starting at the clamped position, and never
   * more than the requested length.
   */
  lemma ReadRandomWithin(file: Option<seq<bv8>>, position: Int64, length: Int32)
    ensures var r := ReadRandom(file, position, length);
      && (file.None? ==> r == [])
      && (file.Some? ==> var p := ClampPosition(position, |file.value|);
            p + |r| <= |file.value| && r == file.value[p..p + |r|])
      && |r| <= Max(0, length)
  {
  }

  /** A position at or past the end reads nothing; so does a length of zero or less. */
  lemma ReadRandomEmpty(file: seq<bv8>, position: Int64, length: Int32)
    requires position >= |file| || length <= 0
    ensures ReadRandom(Some(file), position, length) == []
    ensures ReadCountAsWritten(|file|, position, length) == 0
  {
  }

  /** A length reaching past the end reads exactly the remaining bytes. */
  lemma ReadRandomToEnd(file: seq<bv8>, position: Int64, length: Int32)
    requires 0 <= position <= |file| && length >= |file| - position
    ensures ReadRandom(Some(file), position, length) == file[position..]
  {
  }

  /** Two adjacent in-range reads together read the same bytes as one read of the combined length. */
  lemma ReadRandomAdjacent(file: seq<bv8>, position: Int64, a: Int32, b: Int32)
    requires 0 <= position && 0 <= a && 0 <= b
    requires position + a < 0x8000_0000_0000_0000 && a + b < 0x8000_0000
    ensures ReadRandom(Some(file), position, a) + ReadRandom(Some(file), position + a, b)
         == ReadRandom(Some(file), position, a + b)
  {
    var n := |file|;
    var p, q := ClampPosition(position, n), ClampPosition(position + a, n);
    var ra, rb, rab := ReadCount(n, position, a), ReadCount(n, position + a, b), ReadCount(n, position, a + b);
    ReadCountAdjacent(n, position, a, b);
    ReadRandomIsSlice(file, position, a);
    ReadRandomIsSlice(file, position + a, b);
    ReadRandomIsSlice(file, position, a + b);
    var first, second, both := ReadRandom(Some(file), position, a), ReadRandom(Some(file), position + a, b), ReadRandom(Some(file), position, a + b);
    assert first == file[p..p + ra] && second == file[q..q + rb] && both == file[p..p + rab];
    AdjacentSlices(file, p, ra, q, rb, rab);
  }

  /** Two slices that meet make up the slice that spans both. */
  lemma AdjacentSlices(file: seq<bv8>, p: nat, ra: nat, q: nat, rb: nat, rab: nat)
    requires p + ra == q && q + rb <= |file| && ra + rb == rab
    ensures file[p..p + ra] + file[q..q + rb] == file[p..p + rab]
  {
  }

  /** An existing file reads as the slice from the clamped position, of the counted length. */
  lemma ReadRandomIsSlice(file: seq<bv8>, position: Int64, length: Int32)
    ensures var p := ClampPosition(position, |file|);
      ReadRandom(Some(file), position, length) == file[p..p + ReadCount(|file|, position, length)]
  {
  }

  /** The second of two adjacent reads starts where the first ended, and their counts add up. */
  lemma ReadCountAdjacent(n: nat, position: Int64, a: Int32, b: Int32)
    requires 0 <= position && 0 <= a && 0 <= b
    requires position + a < 0x8000_0000_0000_0000 && a + b < 0x8000_0000
    ensures ClampPosition(position + a, n) == ClampPosition(position, n) + ReadCount(n, position, a)
    ensures ReadCount(n, position, a) + ReadCount(n, position + a, b) == ReadCount(n, position, a + b)
  {
  }
}
