/**
 The overview pass of both drivers: scraper.py's `scrape_courses` and
 main.py's `scrape_z_codes`. The fetched page is given as its `<h3>`
 headings in document order, each with the table rows of the `<li>` that
 encloses it; a failed request is `None`. Each row is reduced to what the
 loop reads from it.

 Both loops keep `phase` and `phase_is_mandatory` in variables that are
 never reset, so a row inherits them from earlier rows; reading them before
 any icon was decoded raises, and the `except Exception` around the whole
 pass turns that into `[]`. main.py carries the semester in the same way.
 */
module Overview {
  import opened Text
  import opened Wrappers
  import opened Markup
  import opened Icons
  import opened Records
  import opened Lists

  /** A `<tr>` of the overview table. */
  datatype Row = Row(
    elem: Element,                  // the row's own attributes
    code: Option<string>,           // get_text() of its first td.code, if any
    name: Option<string>,           // get_text(strip=True) of its first td.opleidingsonderdeel, if any
    faseIcons: seq<Option<string>>, // per td.fase: the src of its first img, when that img has one
    sem: Option<Option<string>>)    // its first td.sem, if any, with the src of that cell's first img

  /** An `<h3>` with the rows of its enclosing `<li>` (`None`: no enclosing `<li>`). */
  datatype Heading = Heading(text: string, rows: Option<seq<Row>>)

  /** The two drivers: scraper.py (`Newer`) and main.py (`Older`). */
  datatype Driver = Newer | Older

  /** The loop variables that outlive a row; `None` while still unbound. */
  datatype ScanState = ScanState(courses: seq<Course>, phase: Option<(nat, bool)>, semester: Option<string>)

  const Start := ScanState([], None, None)

  const OlderHeader := "Verplichte opleidingsonderdelen"

  // ---------------------------------------------------------------------------
  // Headings

  /** scraper.py's header test: the stripped heading text equals the wanted header. */
  function NewerSection(page: seq<Heading>, header: string): Option<seq<Row>> {
    match FindFirst((h: Heading) => Strip(h.text) == header, page)
    case None => None
    case Some(h) => h.rows
  }

  /** main.py's header test: the heading text contains the one header it looks for. */
  function OlderSection(page: seq<Heading>): Option<seq<Row>> {
    match FindFirst((h: Heading) => Contains(h.text, OlderHeader), page)
    case None => None
    case Some(h) => h.rows
  }

  // ---------------------------------------------------------------------------
  // One row

  predicate Visible(r: Row) {
    !IsElementHidden(r.elem)
  }

  /** The row's fase icons are decoded: every visible row in scraper.py, only
      visible rows with a code cell in main.py. */
  predicate DecodesIcons(d: Driver, r: Row) {
    Visible(r) && (d == Older ==> r.code.Some?)
  }

  /** The row produces a course: scraper.py needs a non-empty stripped code,
      main.py only a code cell. */
  predicate Emits(d: Driver, r: Row) {
    && Visible(r)
    && r.code.Some?
    && (d == Newer ==> Strip(r.code.value) != [])
  }

  /** One fase icon: a decodable src replaces the phase, anything else leaves it. */
  function IconStep(phase: Option<(nat, bool)>, icon: Option<string>): Option<(nat, bool)> {
    if icon.Some? && FaseIcon(icon.value).Some? then FaseIcon(icon.value) else phase
  }

  /** The phase variables after the first `n` fase icons of a row. */
  function PhaseAfterIcons(icons: seq<Option<string>>, n: nat, phase: Option<(nat, bool)>): Option<(nat, bool)>
    requires n <= |icons|
  {
    if n == 0 then phase else IconStep(PhaseAfterIcons(icons, n - 1, phase), icons[n - 1])
  }

  /** scraper.py's semester: read afresh for every row, an `int`. */
  function NewerSemester(r: Row): Option<SemesterValue> {
    if r.sem.Some? && r.sem.value.Some? && SemesterIcon(r.sem.value.value).Some?
    then Some(SemesterNumber(DigitsValue(SemesterIcon(r.sem.value.value).value)))
    else None
  }

  /** main.py's semester variable after a row with a sem cell: the captured
      digits when the icon matches, otherwise what it was. */
  function OlderSemester(r: Row, semester: Option<string>): Option<string> {
    if r.sem.Some? && r.sem.value.Some? && SemesterIcon(r.sem.value.value).Some?
    then SemesterIcon(r.sem.value.value)
    else semester
  }

  function NewerRecord(r: Row, phase: (nat, bool)): Course
    requires r.code.Some?
  {
    Course(Strip(r.code.value), r.name, phase.0, phase.1, NewerSemester(r), None, None)
  }

  function OlderRecord(r: Row, phase: (nat, bool), semester: string): Course
    requires r.code.Some?
  {
    Course(Strip(r.code.value), Some(if r.name.Some? then r.name.value else ""), phase.0, phase.1,
           Some(SemesterDigits(semester)), None, None)
  }

  /** One pass of the row loop; `None` when it raises. */
  function RowStep(d: Driver, st: ScanState, r: Row): Option<ScanState> {
    if !DecodesIcons(d, r) then Some(st)
    else
      var phase := PhaseAfterIcons(r.faseIcons, |r.faseIcons|, st.phase);
      if d == Newer then
        if !Emits(Newer, r) then Some(st.(phase := phase))
        else if phase.None? then None
        else Some(st.(courses := st.courses + [NewerRecord(r, phase.value)], phase := phase))
      else if r.sem.None? then None
      else
        var semester := OlderSemester(r, st.semester);
        if phase.None? || semester.None? then None
        else Some(ScanState(st.courses + [OlderRecord(r, phase.value, semester.value)], phase, semester))
  }

  /** The row loop's body as a value. */
  function StepOf(d: Driver): (ScanState, Row) -> Option<ScanState> {
    (st: ScanState, r: Row) => RowStep(d, st, r)
  }

  /** The row loop over the first `n` rows; `None` once a row has raised. */
  function RowsFrom(d: Driver, rows: seq<Row>, n: nat, st: ScanState): Option<ScanState>
    requires n <= |rows|
  {
    RunPrefix(StepOf(d), rows, n, st)
  }

  /** scraper.py's header loop body: the rows under the header, if it is found. */
  function HeaderStep(page: seq<Heading>): (ScanState, string) -> Option<ScanState> {
    (st: ScanState, header: string) =>
      match NewerSection(page, header)
      case None => Some(st)
      case Some(rows) => RowsFrom(Newer, rows, |rows|, st)
  }

  /** scraper.py's header loop over the first `n` headers. */
  function HeadersFrom(page: seq<Heading>, headers: seq<string>, n: nat): Option<ScanState>
    requires n <= |headers|
  {
    RunPrefix(HeaderStep(page), headers, n, Start)
  }

  /** What scraper.py's `scrape_courses` returns. */
  function NewerOverview(page: Option<seq<Heading>>, headers: seq<string>): seq<Course> {
    if page.None? then []
    else match HeadersFrom(page.value, headers, |headers|)
      case None => []
      case Some(st) => st.courses
  }

  /** What main.py's `scrape_z_codes` returns. */
  function OlderOverview(page: Option<seq<Heading>>): seq<Course> {
    if page.None? then []
    else match OlderSection(page.value)
      case None => []
      case Some(rows) =>
        match RowsFrom(Older, rows, |rows|, Start)
        case None => []
        case Some(st) => st.courses
  }

  // ---------------------------------------------------------------------------
  // The two loops

  /** The fase icon loop of one row. */
  method DecodeFaseIcons(faseTds: seq<Option<string>>, phase0: Option<(nat, bool)>) returns (phase: Option<(nat, bool)>)
    ensures phase == PhaseAfterIcons(faseTds, |faseTds|, phase0)
  {
    phase := phase0;
    for k := 0 to |faseTds|
      invariant phase == PhaseAfterIcons(faseTds, k, phase0)
    {
      var imgSrc := faseTds[k];
      if imgSrc.Some? {
        var decoded := FaseIcon(imgSrc.value);
        if decoded.Some? {
          phase := decoded;
        }
      }
    }
  }

  /** The body of scraper.py's row loop; `None` when it raises. */
  method NewerRow(st: ScanState, row: Row) returns (next: Option<ScanState>)
    ensures next == RowStep(Newer, st, row)
  {
    if IsElementHidden(row.elem) {
      return Some(st);
    }
    var zCode: Option<string> := if row.code.Some? then Some(Strip(row.code.value)) else None;
    var phase := DecodeFaseIcons(row.faseIcons, st.phase);
    var semesterNumber: Option<SemesterValue> := None;
    if row.sem.Some? && row.sem.value.Some? {
      var found := SemesterIcon(row.sem.value.value);
      if found.Some? {
        semesterNumber := Some(SemesterNumber(DigitsValue(found.value)));
      }
    }
    if zCode.Some? && zCode.value != [] {
      if phase.None? {
        // `phase` is still unbound
        return None;
      }
      var course := Course(zCode.value, row.name, phase.value.0, phase.value.1, semesterNumber, None, None);
      return Some(st.(courses := st.courses + [course], phase := phase));
    }
    return Some(st.(phase := phase));
  }

  /** The row loop under one header of scraper.py. */
  method NewerRows(rows: seq<Row>, st0: ScanState) returns (result: Option<ScanState>)
    ensures result == RowsFrom(Newer, rows, |rows|, st0)
  {
    var st := st0;
    for i := 0 to |rows|
      invariant RowsFrom(Newer, rows, i, st0) == Some(st)
    {
      var next := NewerRow(st, rows[i]);
      if next.None? {
        RunFailedStays(StepOf(Newer), rows, i + 1, |rows|, st0);
        return None;
      }
      st := next.value;
    }
    return Some(st);
  }

  /** scraper.py's `scrape_courses`: the headers in the order given, the rows
      under each; a raise anywhere makes the result `[]`. */
  method ScrapeCourses(page: Option<seq<Heading>>, headersToScrape: seq<string>) returns (allCourses: seq<Course>)
    ensures allCourses == NewerOverview(page, headersToScrape)
  {
    if page.None? {
      return [];
    }
    var soup := page.value;
    var st := Start;
    for h := 0 to |headersToScrape|
      invariant HeadersFrom(soup, headersToScrape, h) == Some(st)
    {
      var section := NewerSection(soup, headersToScrape[h]);
      if section.Some? {
        var next := NewerRows(section.value, st);
        if next.None? {
          RunFailedStays(HeaderStep(soup), headersToScrape, h + 1, |headersToScrape|, Start);
          return [];
        }
        st := next.value;
      }
    }
    return st.courses;
  }

  /** The body of main.py's row loop; `None` when it raises. */
  method OlderRow(st: ScanState, row: Row) returns (next: Option<ScanState>)
    ensures next == RowStep(Older, st, row)
  {
    if IsElementHidden(row.elem) || row.code.None? {
      return Some(st);
    }
    var zCode := Strip(row.code.value);
    var courseName := if row.name.Some? then row.name.value else "";
    var phase := DecodeFaseIcons(row.faseIcons, st.phase);
    if row.sem.None? {
      // `semester_td.find` on None
      return None;
    }
    var semesterNumber := st.semester;
    if row.sem.value.Some? {
      var found := SemesterIcon(row.sem.value.value);
      if found.Some? {
        semesterNumber := found;
      }
    }
    if phase.None? || semesterNumber.None? {
      // an unbound variable
      return None;
    }
    var course := Course(zCode, Some(courseName), phase.value.0, phase.value.1,
                         Some(SemesterDigits(semesterNumber.value)), None, None);
    return Some(ScanState(st.courses + [course], phase, semesterNumber));
  }

  /** main.py's `scrape_z_codes`: the rows under its one header; a missing
      header or a raise makes the result `[]`. */
  method ScrapeZCodes(page: Option<seq<Heading>>) returns (filteredCourses: seq<Course>)
    ensures filteredCourses == OlderOverview(page)
  {
    if page.None? {
      return [];
    }
    var section := OlderSection(page.value);
    if section.None? {
      return [];
    }
    var rows := section.value;
    var st := Start;
    for i := 0 to |rows|
      invariant RowsFrom(Older, rows, i, Start) == Some(st)
    {
      var next := OlderRow(st, rows[i]);
      if next.None? {
        RunFailedStays(StepOf(Older), rows, i + 1, |rows|, Start);
        return [];
      }
      st := next.value;
    }
    return st.courses;
  }

  // ---------------------------------------------------------------------------
  // What the loops compute, stated without the loop state

  /** The last decodable fase icon among the first `n`, searching from the end. */
  function LastIcon(icons: seq<Option<string>>, n: nat): Option<(nat, bool)>
    requires n <= |icons|
  {
    if n == 0 then None
    else if icons[n - 1].Some? && FaseIcon(icons[n - 1].value).Some? then FaseIcon(icons[n - 1].value)
    else LastIcon(icons, n - 1)
  }

  /** Within a row the last decodable icon wins; with none the phase is kept. */
  lemma {:induction false} PhaseAfterIconsIsLast(icons: seq<Option<string>>, n: nat, phase: Option<(nat, bool)>)
    requires n <= |icons|
    ensures PhaseAfterIcons(icons, n, phase) == if LastIcon(icons, n).Some? then LastIcon(icons, n) else phase
  {
    if n > 0 {
      PhaseAfterIconsIsLast(icons, n - 1, phase);
    }
  }

  /** The phase of the last decodable fase icon in the first `n` rows, among
      the rows whose icons are read, searching from the end; `p0` when there is none. */
  function LastPhase(d: Driver, rows: seq<Row>, n: nat, p0: Option<(nat, bool)>): Option<(nat, bool)>
    requires n <= |rows|
  {
    if n == 0 then p0
    else if DecodesIcons(d, rows[n - 1]) && LastIcon(rows[n - 1].faseIcons, |rows[n - 1].faseIcons|).Some?
    then LastIcon(rows[n - 1].faseIcons, |rows[n - 1].faseIcons|)
    else LastPhase(d, rows, n - 1, p0)
  }

  /** The semester row `r` shows, when main.py reads it. */
  function RowSemester(r: Row): Option<string> {
    if DecodesIcons(Older, r) && r.sem.Some? && r.sem.value.Some? then SemesterIcon(r.sem.value.value) else None
  }

  /** main.py's semester: the last semester icon found in the first `n` rows,
      searching from the end; `s0` when there is none. */
  function LastSemester(rows: seq<Row>, n: nat, s0: Option<string>): Option<string>
    requires n <= |rows|
  {
    if n == 0 then s0
    else if RowSemester(rows[n - 1]).Some? then RowSemester(rows[n - 1])
    else LastSemester(rows, n - 1, s0)
  }

  /** Row `j` raises: it produces a course while the phase, or in main.py the
      sem cell or the semester, is missing. */
  predicate RaisesAt(d: Driver, rows: seq<Row>, j: nat, st0: ScanState)
    requires j < |rows|
  {
    && Emits(d, rows[j])
    && (|| LastPhase(d, rows, j + 1, st0.phase).None?
        || (d == Older && (rows[j].sem.None? || LastSemester(rows, j + 1, st0.semester).None?)))
  }

  predicate Raises(d: Driver, rows: seq<Row>, n: nat, st0: ScanState)
    requires n <= |rows|
  {
    exists j :: 0 <= j < n && RaisesAt(d, rows, j, st0)
  }

  /** The course row `n - 1` produces, with the phase and semester the search
      from the end finds. */
  function ExpectedRecord(d: Driver, rows: seq<Row>, n: nat, st0: ScanState): Course
    requires 0 < n <= |rows| && rows[n - 1].code.Some?
  {
    var phase := LastPhase(d, rows, n, st0.phase);
    var p := if phase.Some? then phase.value else (0, false);
    if d == Newer then NewerRecord(rows[n - 1], p)
    else
      var semester := LastSemester(rows, n, st0.semester);
      OlderRecord(rows[n - 1], p, if semester.Some? then semester.value else [])
  }

  /** Row `j` produces a course. */
  function EmitsAt(d: Driver, rows: seq<Row>): nat -> bool {
    (j: nat) => j < |rows| && Emits(d, rows[j])
  }

  /** The course row `j` produces. */
  function RecordAt(d: Driver, rows: seq<Row>, st0: ScanState): nat --> Course {
    (j: nat) requires j < |rows| && rows[j].code.Some? => ExpectedRecord(d, rows, j + 1, st0)
  }

  /** One course per producing row among the first `n`, in row order. */
  function Expected(d: Driver, rows: seq<Row>, n: nat, st0: ScanState): seq<Course>
    requires n <= |rows|
  {
    Gather(EmitsAt(d, rows), RecordAt(d, rows, st0), n)
  }

  /** The loop state after `n` rows, as the searches from the end give it. */
  function ExpectedState(d: Driver, rows: seq<Row>, n: nat, st0: ScanState): ScanState
    requires n <= |rows|
  {
    ScanState(st0.courses + Expected(d, rows, n, st0), LastPhase(d, rows, n, st0.phase),
              if d == Older then LastSemester(rows, n, st0.semester) else st0.semester)
  }

  /** One row moves the expected state to the next one, or raises exactly
      when that row raises. */
  lemma RowStepSpec(d: Driver, rows: seq<Row>, n: nat, st0: ScanState)
    requires 0 < n <= |rows|
    ensures RowStep(d, ExpectedState(d, rows, n - 1, st0), rows[n - 1]) ==
              if RaisesAt(d, rows, n - 1, st0) then None else Some(ExpectedState(d, rows, n, st0))
  {
    if !DecodesIcons(d, rows[n - 1]) {
      SkippedRowSpec(d, rows, n, st0);
    } else if d == Newer {
      NewerRowSpec(rows, n, st0);
    } else {
      OlderRowSpec(rows, n, st0);
    }
  }

  /** A row whose icons are not read changes nothing. */
  lemma SkippedRowSpec(d: Driver, rows: seq<Row>, n: nat, st0: ScanState)
    requires 0 < n <= |rows| && !DecodesIcons(d, rows[n - 1])
    ensures RowStep(d, ExpectedState(d, rows, n - 1, st0), rows[n - 1]) == Some(ExpectedState(d, rows, n, st0))
    ensures !RaisesAt(d, rows, n - 1, st0)
  {
    var r := rows[n - 1];
    var s := ExpectedState(d, rows, n - 1, st0);
    assert RowStep(d, s, r) == Some(s);
    assert !Emits(d, r);
    assert LastPhase(d, rows, n, st0.phase) == s.phase;
    assert LastSemester(rows, n, st0.semester) == LastSemester(rows, n - 1, st0.semester);
    assert Expected(d, rows, n, st0) == Expected(d, rows, n - 1, st0) + [];
    assert Expected(d, rows, n, st0) == Expected(d, rows, n - 1, st0);
  }

  /** The phase a row's icons leave is the phase the search from the end finds. */
  lemma DecodedPhase(d: Driver, rows: seq<Row>, n: nat, st0: ScanState)
    requires 0 < n <= |rows| && DecodesIcons(d, rows[n - 1])
    ensures var r := rows[n - 1];
      PhaseAfterIcons(r.faseIcons, |r.faseIcons|, LastPhase(d, rows, n - 1, st0.phase)) == LastPhase(d, rows, n, st0.phase)
  {
    var r := rows[n - 1];
    PhaseAfterIconsIsLast(r.faseIcons, |r.faseIcons|, LastPhase(d, rows, n - 1, st0.phase));
  }

  lemma NewerRowSpec(rows: seq<Row>, n: nat, st0: ScanState)
    requires 0 < n <= |rows| && DecodesIcons(Newer, rows[n - 1])
    ensures RowStep(Newer, ExpectedState(Newer, rows, n - 1, st0), rows[n - 1]) ==
              if RaisesAt(Newer, rows, n - 1, st0) then None else Some(ExpectedState(Newer, rows, n, st0))
  {
    var r := rows[n - 1];
    var s := ExpectedState(Newer, rows, n - 1, st0);
    DecodedPhase(Newer, rows, n, st0);
    var phase := LastPhase(Newer, rows, n, st0.phase);
    assert PhaseAfterIcons(r.faseIcons, |r.faseIcons|, s.phase) == phase;
    if !Emits(Newer, r) {
      assert RowStep(Newer, s, r) == Some(s.(phase := phase));
      assert Expected(Newer, rows, n, st0) == Expected(Newer, rows, n - 1, st0) + [];
      assert Expected(Newer, rows, n, st0) == Expected(Newer, rows, n - 1, st0);
    } else if phase.None? {
      assert RowStep(Newer, s, r) == None;
    } else {
      var course := NewerRecord(r, phase.value);
      assert ExpectedRecord(Newer, rows, n, st0) == course;
      assert Expected(Newer, rows, n, st0) == Expected(Newer, rows, n - 1, st0) + [course];
      assert st0.courses + Expected(Newer, rows, n, st0) == s.courses + [course];
      assert RowStep(Newer, s, r) == Some(s.(courses := s.courses + [course], phase := phase));
    }
  }

  lemma OlderRowSpec(rows: seq<Row>, n: nat, st0: ScanState)
    requires 0 < n <= |rows| && DecodesIcons(Older, rows[n - 1])
    ensures RowStep(Older, ExpectedState(Older, rows, n - 1, st0), rows[n - 1]) ==
              if RaisesAt(Older, rows, n - 1, st0) then None else Some(ExpectedState(Older, rows, n, st0))
  {
    var r := rows[n - 1];
    var s := ExpectedState(Older, rows, n - 1, st0);
    DecodedPhase(Older, rows, n, st0);
    var phase := LastPhase(Older, rows, n, st0.phase);
    assert PhaseAfterIcons(r.faseIcons, |r.faseIcons|, s.phase) == phase;
    assert Emits(Older, r);
    if r.sem.None? {
      assert RowStep(Older, s, r) == None;
    } else {
      var semester := LastSemester(rows, n, st0.semester);
      assert OlderSemester(r, s.semester) == semester;
      if phase.None? || semester.None? {
        assert RowStep(Older, s, r) == None;
      } else {
        var course := OlderRecord(r, phase.value, semester.value);
        assert ExpectedRecord(Older, rows, n, st0) == course;
        assert Expected(Older, rows, n, st0) == Expected(Older, rows, n - 1, st0) + [course];
        assert st0.courses + Expected(Older, rows, n, st0) == s.courses + [course];
        assert RowStep(Older, s, r) == Some(ScanState(s.courses + [course], phase, semester));
      }
    }
  }

  /** The row loop raises exactly when some row raises, and otherwise ends in
      the expected state: one course per producing row, in order, each with
      the phase of the last decodable icon up to its row. */
  lemma {:induction false} RowsFromSpec(d: Driver, rows: seq<Row>, n: nat, st0: ScanState)
    requires n <= |rows|
    ensures RowsFrom(d, rows, n, st0) ==
              if Raises(d, rows, n, st0) then None else Some(ExpectedState(d, rows, n, st0))
  {
    if n == 0 {
      assert st0.courses + [] == st0.courses;
      assert ExpectedState(d, rows, 0, st0) == st0;
    } else {
      RowsFromSpec(d, rows, n - 1, st0);
      var prev := RowsFrom(d, rows, n - 1, st0);
      assert RowsFrom(d, rows, n, st0) == if prev.None? then None else StepOf(d)(prev.value, rows[n - 1]);
      if !Raises(d, rows, n - 1, st0) {
        var s := ExpectedState(d, rows, n - 1, st0);
        RowStepSpec(d, rows, n, st0);
        assert StepOf(d)(s, rows[n - 1]) == RowStep(d, s, rows[n - 1]);
        if RaisesAt(d, rows, n - 1, st0) {
          assert Raises(d, rows, n, st0);
        } else {
          assert !Raises(d, rows, n, st0) by {
            forall j | 0 <= j < n ensures !RaisesAt(d, rows, j, st0) {
              if j < n - 1 {
                assert !RaisesAt(d, rows, j, st0);
              }
            }
          }
        }
      } else {
        var j :| 0 <= j < n - 1 && RaisesAt(d, rows, j, st0);
        assert RaisesAt(d, rows, j, st0);
      }
    }
  }

  /** The rows scraper.py finds under one header; none when the header is missing. */
  function SectionRows(page: seq<Heading>, header: string): seq<Row> {
    match NewerSection(page, header)
    case None => []
    case Some(rows) => rows
  }

  function SectionsOf(page: seq<Heading>): string -> seq<Row> {
    (header: string) => SectionRows(page, header)
  }

  /** The rows under every header scraper.py finds, in header order. */
  function FoundRows(page: seq<Heading>, headers: seq<string>, n: nat): seq<Row>
    requires n <= |headers|
  {
    Flatten(SectionsOf(page), headers, n)
  }

  /** One header's pass is the row loop over the rows found under it. */
  lemma HeaderStepIsRun(page: seq<Heading>, header: string, st: ScanState)
    ensures HeaderStep(page)(st, header) ==
              RunPrefix(StepOf(Newer), SectionsOf(page)(header), |SectionsOf(page)(header)|, st)
  {
    if NewerSection(page, header).None? {
      assert RunPrefix(StepOf(Newer), [], 0, st) == Some(st);
    }
  }

  /** scraper.py's header loop is its row loop run over the found sections one
      after the other, the loop variables carried from one section to the next. */
  lemma HeadersFromIsRowsFrom(page: seq<Heading>, headers: seq<string>, n: nat)
    requires n <= |headers|
    ensures HeadersFrom(page, headers, n) ==
              RowsFrom(Newer, FoundRows(page, headers, n), |FoundRows(page, headers, n)|, Start)
  {
    forall st, header ensures HeaderStep(page)(st, header) ==
                              RunPrefix(StepOf(Newer), SectionsOf(page)(header), |SectionsOf(page)(header)|, st) {
      HeaderStepIsRun(page, header, st);
    }
    RunFlatten(HeaderStep(page), StepOf(Newer), SectionsOf(page), headers, n, Start);
  }

  /** What `scrape_courses` returns: `[]` without a page or when a row raises,
      otherwise one course per producing row under the found headers, in order. */
  lemma NewerOverviewSpec(page: seq<Heading>, headers: seq<string>)
    ensures var rows := FoundRows(page, headers, |headers|);
      NewerOverview(Some(page), headers) ==
        if Raises(Newer, rows, |rows|, Start) then [] else Expected(Newer, rows, |rows|, Start)
  {
    var rows := FoundRows(page, headers, |headers|);
    HeadersFromIsRowsFrom(page, headers, |headers|);
    RowsFromSpec(Newer, rows, |rows|, Start);
    assert [] + Expected(Newer, rows, |rows|, Start) == Expected(Newer, rows, |rows|, Start);
  }

  /** What `scrape_z_codes` returns: `[]` without a page, without the header
      or its `<li>`, or when a row raises; otherwise one course per row with a
      code cell, in order. */
  lemma OlderOverviewSpec(page: seq<Heading>)
    ensures OlderOverview(Some(page)) ==
              match OlderSection(page)
              case None => []
              case Some(rows) => if Raises(Older, rows, |rows|, Start) then [] else Expected(Older, rows, |rows|, Start)
  {
    if OlderSection(page).Some? {
      var rows := OlderSection(page).value;
      RowsFromSpec(Older, rows, |rows|, Start);
      assert [] + Expected(Older, rows, |rows|, Start) == Expected(Older, rows, |rows|, Start);
    }
  }

  /** The code of the course row `j` produces is the row's stripped code text. */
  lemma RecordAtCode(d: Driver, rows: seq<Row>, st0: ScanState, j: nat)
    requires j < |rows| && rows[j].code.Some?
    ensures RecordAt(d, rows, st0)(j).zCode == Strip(rows[j].code.value)
  {
  }

  predicate HasCode(c: Course) {
    c.zCode != [] && IsStripped(c.zCode)
  }

  /** Every course the row loop of scraper.py produces has a non-empty, stripped code. */
  lemma NewerExpectedCodes(rows: seq<Row>, n: nat, st0: ScanState)
    requires n <= |rows|
    ensures forall c :: c in Expected(Newer, rows, n, st0) ==> HasCode(c)
  {
    forall j | 0 <= j < n && EmitsAt(Newer, rows)(j)
      ensures RecordAt(Newer, rows, st0).requires(j) && HasCode(RecordAt(Newer, rows, st0)(j))
    {
      RecordAtCode(Newer, rows, st0, j);
      StripSpec(rows[j].code.value);
    }
    GatherAll(EmitsAt(Newer, rows), RecordAt(Newer, rows, st0), n, HasCode);
  }

  /** Every course scraper.py returns has a non-empty, stripped code. */
  lemma NewerCodesNonEmpty(page: Option<seq<Heading>>, headers: seq<string>, c: Course)
    requires c in NewerOverview(page, headers)
    ensures HasCode(c)
  {
    var rows := FoundRows(page.value, headers, |headers|);
    NewerOverviewSpec(page.value, headers);
    NewerExpectedCodes(rows, |rows|, Start);
  }
}
