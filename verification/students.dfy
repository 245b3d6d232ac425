/** `Student`: an id, a full name and an integer score, graded into letter bands. */
module Students {
  import opened Text

  datatype Student = Student(id: int, fullName: string, score: int)

  /** The six answers of `GetGrade`. */
  datatype Grade = A | B | C | D | F | Invalid

  /** The text `GetGrade` returns. */
  function GradeLetter(g: Grade): string {
    match g
    case A => "A"
    case B => "B"
    case C => "C"
    case D => "D"
    case F => "F"
    case Invalid => "Invalid"
  }

  /** `new Student(id, fullName, score)`: stores its arguments unchecked. */
  function NewStudent(id: int, fullName: string, score: int): (s: Student)
    ensures s.id == id && s.fullName == fullName && s.score == score
  {
    Student(id, fullName, score)
  }

  /** `GetGrade`: the arms are tried in order, so every score below 50, negative ones
      included, is an F, and only a score above 100 is `Invalid`. */
  function GetGrade(s: Student): (g: Grade)
    ensures g == A <==> 80 <= s.score <= 100
    ensures g == B <==> 70 <= s.score <= 79
    ensures g == C <==> 60 <= s.score <= 69
    ensures g == D <==> 50 <= s.score <= 59
    ensures g == F <==> s.score < 50
    ensures g == Invalid <==> s.score > 100
  {
    if 80 <= s.score <= 100 then A
    else if 70 <= s.score <= 79 then B
    else if 60 <= s.score <= 69 then C
    else if 50 <= s.score <= 59 then D
    else if s.score < 50 then F
    else Invalid
  }

  /** `ToString`: name, id, score and the grade letter. */
  function ToString(s: Student): (r: string)
    ensures |r| >= |s.fullName| && r[..|s.fullName|] == s.fullName
    ensures var tail := ", Grade = " + GradeLetter(GetGrade(s));
      |r| >= |tail| && r[|r| - |tail|..] == tail
  {
    s.fullName + " (ID: " + IntToString(s.id) + "): Score = " + IntToString(s.score)
      + ", Grade = " + GradeLetter(GetGrade(s))
  }

  /** The order of the letter bands, F lowest. */
  function Rank(g: Grade): nat {
    match g
    case F => 0
    case D => 1
    case C => 2
    case B => 3
    case A => 4
    case Invalid => 5
  }

  /** Within the valid range a higher score never earns a lower grade. */
  lemma GradeMonotone(s: Student, t: Student)
    requires s.score <= t.score <= 100
    ensures Rank(GetGrade(s)) <= Rank(GetGrade(t))
    ensures GetGrade(t) != Invalid
  {
  }

  /** Up to 100, a score of at least 50 is exactly a grade from A to D. */
  lemma PassingIsAThroughD(s: Student)
    requires s.score <= 100
    ensures s.score >= 50 <==> GetGrade(s) in {A, B, C, D}
  {
  }

  /** Different grades have different letters, so the report can tell them apart. */
  lemma GradeLettersDistinct(g: Grade, h: Grade)
    ensures GradeLetter(g) == GradeLetter(h) <==> g == h
  {
  }
}
