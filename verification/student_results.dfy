/** `StudentResultProcessor`: the line-oriented `id, name, score` reader with its
    fail-fast validation, and the integer counts of the grade report. The file's
    lines are the input; opening the file is not part of this model. */
module StudentResults {
  import opened Wrappers
  import opened Text
  import opened Lists
  import opened Students

  /** The three columns, in the order they are validated. */
  datatype Field = StudentId | FullName | Score

  /** Why a line lacks a field: the wrong number of fields, or an empty one. */
  datatype Missing = FieldCount(found: nat) | EmptyField(field: Field)

  /** `MissingFieldException` and `InvalidScoreFormatException`, each carrying the
      1-based line number and the raw line its message quotes. */
  datatype ParseError =
    | MissingField(lineNumber: nat, missing: Missing, content: string)
    | InvalidScoreFormat(lineNumber: nat, field: Field, text: string, content: string)
  {
    function LineNumber(): nat {
      match this
      case MissingField(n, _, _) => n
      case InvalidScoreFormat(n, _, _, _) => n
    }
  }

  /** `line.Split(',')` with every field trimmed: one field per comma-separated piece,
      each the piece without the white space around it, so no field holds a comma or
      starts or ends with white space. */
  function Fields(line: string): (fields: seq<string>)
    ensures |fields| == |Split(line, ',')| && |fields| >= 1
    ensures forall i :: 0 <= i < |fields| ==> Padded(Split(line, ',')[i], fields[i])
    ensures forall i :: 0 <= i < |fields| ==> ',' !in fields[i]
    ensures forall i :: 0 <= i < |fields| && |fields[i]| > 0 ==>
      !IsWhiteSpace(fields[i][0]) && !IsWhiteSpace(fields[i][|fields[i]| - 1])
  {
    var raw := Split(line, ',');
    var fields := seq(|raw|, i requires 0 <= i < |raw| => Trim(raw[i]));
    assert forall i :: 0 <= i < |fields| ==> TrimmedPiece(raw[i], fields[i]) by {
      forall i | 0 <= i < |fields| ensures TrimmedPiece(raw[i], fields[i]) {
        PieceTrims(raw[i]);
      }
    }
    fields
  }

  /** What `Fields` promises about one field `f` cut from a comma-free piece `p`. */
  predicate TrimmedPiece(p: string, f: string) {
    && Padded(p, f)
    && ',' !in f
    && (|f| > 0 ==> !IsWhiteSpace(f[0]) && !IsWhiteSpace(f[|f| - 1]))
  }

  lemma PieceTrims(p: string)
    requires ',' !in p
    ensures TrimmedPiece(p, Trim(p))
  {
    TrimAddsNothing(p, ',');
  }

  /** One non-blank line, numbered `lineNumber`: exactly three fields, none empty
      (checked in column order), an integer id, then an integer score. A score
      outside 0..100 is accepted; the source only prints a warning for it. */
  function ParseLine(line: string, lineNumber: nat): (r: Result<Student, ParseError>)
    ensures r.Err? ==> r.error.LineNumber() == lineNumber && r.error.content == line
  {
    var fields := Fields(line);
    if |fields| != 3 then Err(MissingField(lineNumber, FieldCount(|fields|), line))
    else if IsBlank(fields[0]) then Err(MissingField(lineNumber, EmptyField(StudentId), line))
    else if IsBlank(fields[1]) then Err(MissingField(lineNumber, EmptyField(FullName), line))
    else if IsBlank(fields[2]) then Err(MissingField(lineNumber, EmptyField(Score), line))
    else match ParseInt32(fields[0])
      case None => Err(InvalidScoreFormat(lineNumber, StudentId, fields[0], line))
      case Some(id) =>
        match ParseInt32(fields[2])
        case None => Err(InvalidScoreFormat(lineNumber, Score, fields[2], line))
        case Some(score) => Ok(NewStudent(id, fields[1], score))
  }

  /** The order of the checks: a wrong field count first, then the first empty field
      in column order, then the id, then the score; the range of the score is never
      a reason to refuse the line. */
  lemma ParseLineChecks(line: string, lineNumber: nat)
    ensures var f, r := Fields(line), ParseLine(line, lineNumber);
      && (|f| != 3 ==> r == Err(MissingField(lineNumber, FieldCount(|f|), line)))
      && (|f| == 3 ==>
        && (IsBlank(f[0]) ==> r == Err(MissingField(lineNumber, EmptyField(StudentId), line)))
        && (!IsBlank(f[0]) && IsBlank(f[1]) ==> r == Err(MissingField(lineNumber, EmptyField(FullName), line)))
        && (!IsBlank(f[0]) && !IsBlank(f[1]) && IsBlank(f[2]) ==>
              r == Err(MissingField(lineNumber, EmptyField(Score), line)))
        && (!IsBlank(f[0]) && !IsBlank(f[1]) && !IsBlank(f[2]) && ParseInt32(f[0]).None? ==>
              r == Err(InvalidScoreFormat(lineNumber, StudentId, f[0], line)))
        && (!IsBlank(f[0]) && !IsBlank(f[1]) && !IsBlank(f[2]) && ParseInt32(f[0]).Some? && ParseInt32(f[2]).None? ==>
              r == Err(InvalidScoreFormat(lineNumber, Score, f[2], line)))
        && (r.Ok? <==> !IsBlank(f[1]) && ParseInt32(f[0]).Some? && ParseInt32(f[2]).Some?)
        && (r.Ok? ==> r.value == Student(ParseInt32(f[0]).value, f[1], ParseInt32(f[2]).value)))
  {
  }

  /** How many of the lines are not blank. */
  function CountNonBlank(lines: seq<string>): nat {
    if |lines| == 0 then 0
    else CountNonBlank(lines[..|lines| - 1]) + (if IsBlank(lines[|lines| - 1]) then 0 else 1)
  }

  lemma {:induction false} CountNonBlankGrows(lines: seq<string>, i: nat, k: nat)
    requires i < k <= |lines| && !IsBlank(lines[i])
    ensures CountNonBlank(lines[..i]) < CountNonBlank(lines[..k])
    decreases k
  {
    assert lines[..k][..k - 1] == lines[..k - 1];
    if k > i + 1 {
      CountNonBlankGrows(lines, i, k - 1);
    }
  }

  /** After the first `n` lines, `students` holds one parsed student per non-blank
      line, in order. */
  predicate ReadSoFar(lines: seq<string>, parse: (string, nat) -> Result<Student, ParseError>, students: seq<Student>, n: nat)
    requires n <= |lines|
  {
    && |students| == CountNonBlank(lines[..n])
    && forall i :: 0 <= i < n && !IsBlank(lines[i]) ==>
      CountNonBlank(lines[..i]) < |students| && parse(lines[i], i + 1) == Ok(students[CountNonBlank(lines[..i])])
  }

  lemma ReadSoFarSkip(lines: seq<string>, parse: (string, nat) -> Result<Student, ParseError>, students: seq<Student>, n: nat)
    requires n < |lines| && IsBlank(lines[n]) && ReadSoFar(lines, parse, students, n)
    ensures ReadSoFar(lines, parse, students, n + 1)
  {
    assert lines[..n + 1][..n] == lines[..n];
  }

  lemma ReadSoFarTake(lines: seq<string>, parse: (string, nat) -> Result<Student, ParseError>, students: seq<Student>, n: nat, student: Student)
    requires n < |lines| && !IsBlank(lines[n]) && parse(lines[n], n + 1) == Ok(student)
    requires ReadSoFar(lines, parse, students, n)
    ensures ReadSoFar(lines, parse, students + [student], n + 1)
  {
    assert lines[..n + 1][..n] == lines[..n];
    var after := students + [student];
    forall i | 0 <= i < n + 1 && !IsBlank(lines[i])
      ensures CountNonBlank(lines[..i]) < |after|
      ensures parse(lines[i], i + 1) == Ok(after[CountNonBlank(lines[..i])])
    {
      if i < n {
        CountNonBlankGrows(lines, i, n);
        assert after[CountNonBlank(lines[..i])] == students[CountNonBlank(lines[..i])];
      }
    }
  }

  /** The reading loop of `ReadStudentsFromFile`, for any line parser `parse`. */
  method ReadNonBlank(lines: seq<string>, parse: (string, nat) -> Result<Student, ParseError>)
    returns (r: Result<seq<Student>, ParseError>)
    ensures r.Ok? <==> forall i :: 0 <= i < |lines| && !IsBlank(lines[i]) ==> parse(lines[i], i + 1).Ok?
    ensures r.Ok? ==> |r.value| == CountNonBlank(lines)
    ensures r.Ok? ==> forall i :: 0 <= i < |lines| && !IsBlank(lines[i]) ==>
      CountNonBlank(lines[..i]) < |r.value| && parse(lines[i], i + 1) == Ok(r.value[CountNonBlank(lines[..i])])
    ensures r.Err? ==> exists i ::
      && 0 <= i < |lines| && !IsBlank(lines[i]) && parse(lines[i], i + 1) == Err(r.error)
      && forall j :: 0 <= j < i && !IsBlank(lines[j]) ==> parse(lines[j], j + 1).Ok?
  {
    var students: seq<Student> := [];
    var lineNumber := 0;
    while lineNumber < |lines|
      invariant 0 <= lineNumber <= |lines|
      invariant ReadSoFar(lines, parse, students, lineNumber)
    {
      var line := lines[lineNumber];
      if IsBlank(line) {
        ReadSoFarSkip(lines, parse, students, lineNumber);
        lineNumber := lineNumber + 1;
        continue;
      }
      match parse(line, lineNumber + 1) {
        case Err(e) =>
          assert parse(lines[lineNumber], lineNumber + 1) == Err(e);
          return Err(e);
        case Ok(student) =>
          ReadSoFarTake(lines, parse, students, lineNumber, student);
          students := students + [student];
          lineNumber := lineNumber + 1;
      }
    }
    assert lines[..lineNumber] == lines;
    return Ok(students);
  }

  /** `ReadStudentsFromFile` over the file's lines. Blank lines are skipped but still
      counted, so errors name the line's position in the file; the first bad line
      aborts the read and no partial list is returned; otherwise there is one student
      per non-blank line, in file order. */
  method ReadStudentsFromFile(lines: seq<string>) returns (r: Result<seq<Student>, ParseError>)
    ensures r.Ok? <==> forall i :: 0 <= i < |lines| && !IsBlank(lines[i]) ==> ParseLine(lines[i], i + 1).Ok?
    ensures r.Ok? ==> |r.value| == CountNonBlank(lines)
    ensures r.Ok? ==> forall i :: 0 <= i < |lines| && !IsBlank(lines[i]) ==>
      CountNonBlank(lines[..i]) < |r.value| && ParseLine(lines[i], i + 1) == Ok(r.value[CountNonBlank(lines[..i])])
    ensures r.Err? ==> exists i ::
      && 0 <= i < |lines| && !IsBlank(lines[i]) && ParseLine(lines[i], i + 1) == Err(r.error)
      && forall j :: 0 <= j < i && !IsBlank(lines[j]) ==> ParseLine(lines[j], j + 1).Ok?
  {
    r := ReadNonBlank(lines, ParseLine);
  }

  // ---------------------------------------------------------------------------
  // The report's counts
  // ---------------------------------------------------------------------------

  function GradeIs(g: Grade): Student -> bool {
    (s: Student) => GetGrade(s) == g
  }

  /** `gradeDistribution[grade]`, or 0 when no student has that grade. */
  function CountGrade(students: seq<Student>, g: Grade): nat {
    |Filter(students, GradeIs(g))|
  }

  function Passes(s: Student): bool {
    s.score >= 50
  }

  /** `students.Count(s => s.Score >= 50)`. */
  function PassCount(students: seq<Student>): nat {
    |Filter(students, Passes)|
  }

  /** The five bands the report prints. */
  function ShownTotal(students: seq<Student>): nat {
    CountGrade(students, A) + CountGrade(students, B) + CountGrade(students, C)
      + CountGrade(students, D) + CountGrade(students, F)
  }

  /** Every student is in exactly one grade group, but the report prints only the
      bands A to F: students graded `Invalid` appear in none of them, and the pass
      count includes them because their score is above 50. */
  lemma ReportCounts(students: seq<Student>)
    ensures ShownTotal(students) + CountGrade(students, Invalid) == |students|
    ensures PassCount(students) == CountGrade(students, A) + CountGrade(students, B) + CountGrade(students, C)
      + CountGrade(students, D) + CountGrade(students, Invalid)
  {
    EveryStudentInOneGroup(students);
    PassingGroups(students);
  }

  lemma {:induction false} EveryStudentInOneGroup(students: seq<Student>)
    ensures ShownTotal(students) + CountGrade(students, Invalid) == |students|
    decreases |students|
  {
    if |students| > 0 {
      EveryStudentInOneGroup(students[1..]);
      FilterLengthCons(students, GradeIs(A));
      FilterLengthCons(students, GradeIs(B));
      FilterLengthCons(students, GradeIs(C));
      FilterLengthCons(students, GradeIs(D));
      FilterLengthCons(students, GradeIs(F));
      FilterLengthCons(students, GradeIs(Invalid));
    }
  }

  lemma {:induction false} PassingGroups(students: seq<Student>)
    ensures PassCount(students) == CountGrade(students, A) + CountGrade(students, B) + CountGrade(students, C)
      + CountGrade(students, D) + CountGrade(students, Invalid)
    decreases |students|
  {
    if |students| > 0 {
      PassingGroups(students[1..]);
      FilterLengthCons(students, GradeIs(A));
      FilterLengthCons(students, GradeIs(B));
      FilterLengthCons(students, GradeIs(C));
      FilterLengthCons(students, GradeIs(D));
      FilterLengthCons(students, GradeIs(Invalid));
      FilterLengthCons(students, Passes);
    }
  }

  /** The printed bands account for every student exactly when no score is above 100. */
  lemma ShownBandsCoverAll(students: seq<Student>)
    ensures ShownTotal(students) == |students| <==> forall i :: 0 <= i < |students| ==> students[i].score <= 100
  {
    ReportCounts(students);
    if forall i :: 0 <= i < |students| ==> students[i].score <= 100 {
      FilterKeepsNone(students, GradeIs(Invalid));
    } else {
      var i :| 0 <= i < |students| && students[i].score > 100;
      assert GradeIs(Invalid)(students[i]);
      assert students[i] in Filter(students, GradeIs(Invalid));
    }
  }

  // ---------------------------------------------------------------------------
  // Round trip
  // ---------------------------------------------------------------------------

  /** A line in the input format: `id,name,score`. */
  function FormatLine(s: Student): string {
    IntToString(s.id) + "," + s.fullName + "," + IntToString(s.score)
  }

  /** A name the format can carry: non-empty, comma-free, and already trimmed. */
  predicate Storable(name: string) {
    && |name| > 0 && ',' !in name
    && !IsWhiteSpace(name[0]) && !IsWhiteSpace(name[|name| - 1])
  }

  lemma JoinThree(a: string, b: string, c: string)
    ensures Join([a, b, c], ',') == a + "," + b + "," + c
  {
    var parts := [a, b, c];
    assert parts[1..] == [b, c] && parts[1..][1..] == [c];
    assert Join([c], ',') == c;
    assert Join([b, c], ',') == b + [','] + c;
    assert Join(parts, ',') == a + [','] + (b + [','] + c);
  }

  /** A string that trimming and splitting on commas both leave whole. */
  predicate Bare(x: string) {
    ',' !in x && (|x| > 0 ==> !IsWhiteSpace(x[0]) && !IsWhiteSpace(x[|x| - 1]))
  }

  /** Splitting three comma-free strings joined with commas gives them back. */
  lemma SplitThree(a: string, b: string, c: string)
    requires ',' !in a && ',' !in b && ',' !in c
    ensures Split(a + "," + b + "," + c, ',') == [a, b, c]
  {
    JoinThree(a, b, c);
    SplitJoin([a, b, c], ',');
  }

  /** When trimming leaves every comma-separated piece as it is, the fields are the pieces. */
  lemma FieldsOfTrimmedPieces(line: string)
    requires forall i :: 0 <= i < |Split(line, ',')| ==> Trim(Split(line, ',')[i]) == Split(line, ',')[i]
    ensures Fields(line) == Split(line, ',')
  {
  }

  /** Three bare strings joined with commas come back as the three fields. */
  lemma FieldsOfThree(a: string, b: string, c: string)
    requires Bare(a) && Bare(b) && Bare(c)
    ensures Fields(a + "," + b + "," + c) == [a, b, c]
  {
    var line := a + "," + b + "," + c;
    SplitThree(a, b, c);
    var raw := Split(line, ',');
    forall i | 0 <= i < |raw| ensures Trim(raw[i]) == raw[i] {
      if i == 0 {
        TrimNoOp(a);
      } else if i == 1 {
        TrimNoOp(b);
      } else {
        TrimNoOp(c);
      }
    }
    FieldsOfTrimmedPieces(line);
  }

  lemma IntToStringIsBare(n: int)
    ensures Bare(IntToString(n))
  {
    IntToStringHasNoWhiteSpace(n);
  }

  /** Formatting a 32-bit student with a storable name and parsing the line gives the
      student back, on whatever line it stands; scores outside 0..100 included. */
  lemma FormatThenParse(s: Student, lineNumber: nat)
    requires InInt32(s.id) && InInt32(s.score) && Storable(s.fullName)
    ensures ParseLine(FormatLine(s), lineNumber) == Ok(s)
  {
    var a, b := IntToString(s.id), IntToString(s.score);
    var line := FormatLine(s);
    IntToStringIsBare(s.id);
    IntToStringIsBare(s.score);
    FieldsOfThree(a, s.fullName, b);
    assert Fields(line) == [a, s.fullName, b];
    NonEmptyBareIsNotBlank(a);
    NonEmptyBareIsNotBlank(b);
    NonEmptyBareIsNotBlank(s.fullName);
    FormatParse(s.id);
    FormatParse(s.score);
    ParseLineChecks(line, lineNumber);
  }

  lemma NonEmptyBareIsNotBlank(x: string)
    requires |x| > 0 && Bare(x)
    ensures !IsBlank(x)
  {
    assert !IsWhiteSpace(x[0]);
  }
}
