/**
 The database side of both drivers: `insert_data` writes every course record
 into the `courses` table with `INSERT OR REPLACE`, keyed by its Z-code, and
 appends one row to the `objectives` table per non-empty objective, then
 commits. The tables are the two fields of `CatalogDb`: the course rows as a
 map from Z-code, the objective rows as a sequence in insertion (`id`) order.
 */
module Catalog {
  import opened Wrappers
  import opened Lists
  import opened Records

  /** A row of the `courses` table, in the columns `insert_data` writes. */
  datatype CourseRow = CourseRow(
    zCode: string,
    courseName: Option<string>,
    phase: nat,
    phaseIsMandatory: bool,
    semester: Option<SemesterValue>,
    learningContents: string)

  /** A row of the `objectives` table, without its generated `id`. */
  datatype ObjectiveRow = ObjectiveRow(courseZCode: string, objectiveText: string)

  /** The row scraper.py writes for a course: `learning_contents` falls back
      to `''` when the key is missing. */
  function RowOf(c: Course): (r: CourseRow)
    ensures r.zCode == c.zCode && r.courseName == c.courseName && r.semester == c.semester
    ensures r.phase == c.phase && r.phaseIsMandatory == c.phaseIsMandatory
    ensures c.learningContents.Some? ==> r.learningContents == c.learningContents.value
    ensures c.learningContents.None? ==> r.learningContents == ""
  {
    CourseRow(c.zCode, c.courseName, c.phase, c.phaseIsMandatory, c.semester,
              if c.learningContents.Some? then c.learningContents.value else "")
  }

  /** `course.get('objectives', [])`. */
  function ObjectiveList(c: Course): seq<string> {
    if c.objectives.Some? then c.objectives.value else []
  }

  function ObjectiveRowOf(zCode: string): string -> ObjectiveRow {
    (o: string) => ObjectiveRow(zCode, o)
  }

  predicate HasText(r: ObjectiveRow) {
    r.objectiveText != []
  }

  /** The objective rows written for one course, in list order. */
  function ObjectiveRowsOf(c: Course): seq<ObjectiveRow> {
    var objs := ObjectiveList(c);
    KeepMapPrefix(ObjectiveRowOf(c.zCode), HasText, objs, |objs|)
  }

  /** The course table after upserting the first `n` courses into `m`. */
  function Upserted(m: map<string, CourseRow>, cs: seq<Course>, n: nat): map<string, CourseRow>
    requires n <= |cs|
  {
    if n == 0 then m else Upserted(m, cs, n - 1)[cs[n - 1].zCode := RowOf(cs[n - 1])]
  }

  /** The objective rows appended for the first `n` courses. */
  function NewRows(cs: seq<Course>, n: nat): seq<ObjectiveRow>
    requires n <= |cs|
  {
    Flatten(ObjectiveRowsOf, cs, n)
  }

  /** Both keys the detail pass writes are present; main.py's `insert_data`
      raises `KeyError` on a course without them. */
  predicate HasDetail(c: Course) {
    c.objectives.Some? && c.learningContents.Some?
  }

  class CatalogDb {
    var courses: map<string, CourseRow>
    var objectives: seq<ObjectiveRow>

    /** Freshly created, empty tables. */
    constructor ()
      ensures courses == map[] && objectives == []
    {
      courses := map[];
      objectives := [];
    }

    /** The objective loop for one course: one row per non-empty objective, in order. */
    method AppendObjectives(zCode: string, objs: seq<string>)
      modifies this
      ensures courses == old(courses)
      ensures objectives == old(objectives) + KeepMapPrefix(ObjectiveRowOf(zCode), HasText, objs, |objs|)
    {
      var k := 0;
      while k < |objs|
        invariant k <= |objs|
        invariant courses == old(courses)
        invariant objectives == old(objectives) + KeepMapPrefix(ObjectiveRowOf(zCode), HasText, objs, k)
      {
        var objective := objs[k];
        if objective != [] {
          objectives := objectives + [ObjectiveRow(zCode, objective)];
        }
        k := k + 1;
      }
    }

    /** One iteration of scraper.py's `insert_data`. */
    method InsertCourse(course: Course)
      modifies this
      ensures courses == old(courses)[course.zCode := RowOf(course)]
      ensures objectives == old(objectives) + ObjectiveRowsOf(course)
    {
      courses := courses[course.zCode := RowOf(course)];
      AppendObjectives(course.zCode, ObjectiveList(course));
    }

    /** scraper.py's `insert_data`. */
    method InsertData(courseData: seq<Course>)
      modifies this
      ensures courses == Upserted(old(courses), courseData, |courseData|)
      ensures objectives == old(objectives) + NewRows(courseData, |courseData|)
    {
      var i := 0;
      while i < |courseData|
        invariant i <= |courseData|
        invariant courses == Upserted(old(courses), courseData, i)
        invariant objectives == old(objectives) + NewRows(courseData, i)
      {
        ghost var rows := NewRows(courseData, i);
        InsertCourse(courseData[i]);
        assert NewRows(courseData, i + 1) == rows + ObjectiveRowsOf(courseData[i]);
        assert objectives == old(objectives) + (rows + ObjectiveRowsOf(courseData[i]));
        i := i + 1;
      }
    }

    /** main.py's `insert_data`. A course without `objectives` or
        `learning_contents` raises `KeyError` before the commit, so none of the
        call's rows are kept; otherwise it stores what scraper.py's does. */
    method OlderInsertData(courseData: seq<Course>) returns (raised: bool)
      modifies this
      ensures raised <==> exists i :: 0 <= i < |courseData| && !HasDetail(courseData[i])
      ensures raised ==> courses == old(courses) && objectives == old(objectives)
      ensures !raised ==> courses == Upserted(old(courses), courseData, |courseData|)
      ensures !raised ==> objectives == old(objectives) + NewRows(courseData, |courseData|)
    {
      var committedCourses, committedObjectives := courses, objectives;
      var i := 0;
      while i < |courseData|
        invariant i <= |courseData|
        invariant forall j :: 0 <= j < i ==> HasDetail(courseData[j])
        invariant courses == Upserted(committedCourses, courseData, i)
        invariant objectives == committedObjectives + NewRows(courseData, i)
      {
        var course := courseData[i];
        if course.learningContents.None? || course.objectives.None? {
          courses, objectives := committedCourses, committedObjectives;
          return true;
        }
        ghost var rows := NewRows(courseData, i);
        InsertCourse(course);
        assert NewRows(courseData, i + 1) == rows + ObjectiveRowsOf(course);
        assert objectives == committedObjectives + (rows + ObjectiveRowsOf(course));
        i := i + 1;
      }
      return false;
    }
  }

  /** A Z-code has a row after the upserts exactly when it had one before or
      one of the courses carries it. */
  lemma {:induction false} UpsertedKeys(m: map<string, CourseRow>, cs: seq<Course>, n: nat, z: string)
    requires n <= |cs|
    ensures z in Upserted(m, cs, n) <==> z in m || exists i :: 0 <= i < n && cs[i].zCode == z
  {
    if n > 0 {
      UpsertedKeys(m, cs, n - 1, z);
    }
  }

  /** `INSERT OR REPLACE`: the row of a Z-code is written by the last course
      carrying it. */
  lemma {:induction false} LastWriteWins(m: map<string, CourseRow>, cs: seq<Course>, n: nat, i: nat)
    requires i < n <= |cs|
    requires forall k :: i < k < n ==> cs[k].zCode != cs[i].zCode
    ensures cs[i].zCode in Upserted(m, cs, n) && Upserted(m, cs, n)[cs[i].zCode] == RowOf(cs[i])
  {
    if i < n - 1 {
      LastWriteWins(m, cs, n - 1, i);
    }
  }

  /** Rows of Z-codes no course carries are left as they were. */
  lemma {:induction false} UntouchedKept(m: map<string, CourseRow>, cs: seq<Course>, n: nat, z: string)
    requires n <= |cs|
    requires z in m && forall i :: 0 <= i < n ==> cs[i].zCode != z
    ensures z in Upserted(m, cs, n) && Upserted(m, cs, n)[z] == m[z]
  {
    if n > 0 {
      UntouchedKept(m, cs, n - 1, z);
    }
  }

  /** The appended objective rows are exactly the non-empty objectives of the
      courses, each under its course's Z-code. */
  /** The objective rows of one course are its non-empty objectives, each
      under the course's Z-code. */
  lemma ObjectiveRowsOfMembers(c: Course, r: ObjectiveRow)
    ensures r in ObjectiveRowsOf(c) <==>
              r.objectiveText != [] && r.courseZCode == c.zCode && r.objectiveText in ObjectiveList(c)
  {
    var objs := ObjectiveList(c);
    KeepMapPrefixMembers(ObjectiveRowOf(c.zCode), HasText, objs, |objs|, r);
    if r.objectiveText in objs && r.courseZCode == c.zCode {
      var k :| 0 <= k < |objs| && objs[k] == r.objectiveText;
      assert ObjectiveRowOf(c.zCode)(objs[k]) == r;
    }
  }

  lemma NewRowsMembers(cs: seq<Course>, n: nat, r: ObjectiveRow)
    requires n <= |cs|
    ensures r in NewRows(cs, n) <==>
              r.objectiveText != [] && exists i :: 0 <= i < n && r.courseZCode == cs[i].zCode && r.objectiveText in ObjectiveList(cs[i])
  {
    FlattenMembers(ObjectiveRowsOf, cs, n, r);
    forall i | 0 <= i < n
      ensures r in ObjectiveRowsOf(cs[i]) <==>
                r.objectiveText != [] && r.courseZCode == cs[i].zCode && r.objectiveText in ObjectiveList(cs[i])
    {
      ObjectiveRowsOfMembers(cs[i], r);
    }
  }
}
