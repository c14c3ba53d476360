/** The course dictionaries the two drivers pass from the overview pass to the
    detail pass and on to the database. */
module Records {
  import opened Wrappers

  /** The `semester` value of a course: an `int` in scraper.py, the captured
      digit string in main.py. */
  datatype SemesterValue = SemesterNumber(n: nat) | SemesterDigits(digits: string)

  /** A course dictionary. `courseName` is `None` when the value is Python's
      `None`; `objectives` and `learningContents` are `None` while the
      dictionary has no such key. */
  datatype Course = Course(
    zCode: string,
    courseName: Option<string>,
    phase: nat,
    phaseIsMandatory: bool,
    semester: Option<SemesterValue>,
    objectives: Option<seq<string>>,
    learningContents: Option<string>)
}
