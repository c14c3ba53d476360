/**
 The read side, `get_courses_with_objectives` in api.py: the objective rows
 are grouped by course code into a dictionary, and every course row is
 returned with the list of its objective texts attached. The two SQL reads
 are the inputs `courses` and `objectives`, in the order the queries return
 them.
 */
module Api {
  import opened Catalog

  /** A course row turned into a dictionary, with the `objectives` key added. */
  datatype CourseWithObjectives = CourseWithObjectives(course: CourseRow, objectives: seq<string>)

  /** The texts of the objective rows among the first `n` whose course code is
      `z`, in row order. */
  function TextsFor(rows: seq<ObjectiveRow>, z: string, n: nat): (r: seq<string>)
    requires n <= |rows|
    ensures |r| <= n
  {
    if n == 0 then []
    else TextsFor(rows, z, n - 1) + (if rows[n - 1].courseZCode == z then [rows[n - 1].objectiveText] else [])
  }

  /** The distinct course codes of the first `n` rows in order of first
      appearance: the keys of `objectives_by_course` in insertion order. */
  function CodesOf(rows: seq<ObjectiveRow>, n: nat): seq<string>
    requires n <= |rows|
  {
    if n == 0 then []
    else
      var codes := CodesOf(rows, n - 1);
      if rows[n - 1].courseZCode in codes then codes else codes + [rows[n - 1].courseZCode]
  }

  /** `objectives_by_course` after the first `n` rows. */
  function Grouping(rows: seq<ObjectiveRow>, n: nat): map<string, seq<string>>
    requires n <= |rows|
  {
    map z | z in CodesOf(rows, n) :: TextsFor(rows, z, n)
  }

  /** `objectives_by_course.get(z, [])`. */
  function GetOrEmpty(m: map<string, seq<string>>, z: string): seq<string> {
    if z in m then m[z] else []
  }

  /** The grouping loop. */
  method GroupObjectives(objectives: seq<ObjectiveRow>) returns (objectivesByCourse: map<string, seq<string>>)
    ensures objectivesByCourse == Grouping(objectives, |objectives|)
  {
    objectivesByCourse := map[];
    var k := 0;
    while k < |objectives|
      invariant k <= |objectives|
      invariant objectivesByCourse == Grouping(objectives, k)
    {
      var courseZCode := objectives[k].courseZCode;
      if courseZCode !in objectivesByCourse {
        objectivesByCourse := objectivesByCourse[courseZCode := []];
      }
      objectivesByCourse := objectivesByCourse[courseZCode := objectivesByCourse[courseZCode] + [objectives[k].objectiveText]];
      GroupingStep(objectives, k);
      k := k + 1;
    }
  }

  /** The merge loop: one dictionary per course row, in order. */
  method MergeObjectives(courses: seq<CourseRow>, objectivesByCourse: map<string, seq<string>>)
    returns (coursesWithObjectives: seq<CourseWithObjectives>)
    ensures |coursesWithObjectives| == |courses|
    ensures forall i :: 0 <= i < |courses| ==>
              coursesWithObjectives[i] == CourseWithObjectives(courses[i], GetOrEmpty(objectivesByCourse, courses[i].zCode))
  {
    coursesWithObjectives := [];
    for i := 0 to |courses|
      invariant |coursesWithObjectives| == i
      invariant forall j :: 0 <= j < i ==>
                  coursesWithObjectives[j] == CourseWithObjectives(courses[j], GetOrEmpty(objectivesByCourse, courses[j].zCode))
    {
      var courseDict := CourseWithObjectives(courses[i], GetOrEmpty(objectivesByCourse, courses[i].zCode));
      coursesWithObjectives := coursesWithObjectives + [courseDict];
    }
  }

  /** `get_courses_with_objectives`: every course row, unchanged and in order,
      with the texts of exactly its own objective rows, in row order. */
  method GetCoursesWithObjectives(courses: seq<CourseRow>, objectives: seq<ObjectiveRow>)
    returns (coursesWithObjectives: seq<CourseWithObjectives>)
    ensures |coursesWithObjectives| == |courses|
    ensures forall i :: 0 <= i < |courses| ==>
              coursesWithObjectives[i].course == courses[i]
              && coursesWithObjectives[i].objectives == TextsFor(objectives, courses[i].zCode, |objectives|)
  {
    var objectivesByCourse := GroupObjectives(objectives);
    coursesWithObjectives := MergeObjectives(courses, objectivesByCourse);
    forall i | 0 <= i < |courses|
      ensures GetOrEmpty(objectivesByCourse, courses[i].zCode) == TextsFor(objectives, courses[i].zCode, |objectives|)
    {
      GroupingGet(objectives, |objectives|, courses[i].zCode);
    }
  }

  /** A code is among the keys exactly when some row carries it. */
  lemma {:induction false} CodesOfMembers(rows: seq<ObjectiveRow>, n: nat, z: string)
    requires n <= |rows|
    ensures z in CodesOf(rows, n) <==> exists i :: 0 <= i < n && rows[i].courseZCode == z
  {
    if n > 0 {
      CodesOfMembers(rows, n - 1, z);
    }
  }

  /** The keys are distinct. */
  lemma {:induction false} CodesOfDistinct(rows: seq<ObjectiveRow>, n: nat)
    requires n <= |rows|
    ensures forall i, j :: 0 <= i < j < |CodesOf(rows, n)| ==> CodesOf(rows, n)[i] != CodesOf(rows, n)[j]
  {
    if n > 0 {
      CodesOfDistinct(rows, n - 1);
    }
  }

  /** A course with no objective rows gets `[]`, and only such a course. */
  lemma {:induction false} TextsForEmpty(rows: seq<ObjectiveRow>, z: string, n: nat)
    requires n <= |rows|
    ensures TextsFor(rows, z, n) == [] <==> forall i :: 0 <= i < n ==> rows[i].courseZCode != z
  {
    if n > 0 {
      TextsForEmpty(rows, z, n - 1);
    }
  }

  /** A course's list holds exactly the texts of the rows carrying its code,
      so rows of a code no course has contribute to no list. */
  lemma {:induction false} TextsForMembers(rows: seq<ObjectiveRow>, z: string, n: nat, t: string)
    requires n <= |rows|
    ensures t in TextsFor(rows, z, n) <==> exists i :: 0 <= i < n && rows[i].courseZCode == z && rows[i].objectiveText == t
  {
    if n > 0 {
      TextsForMembers(rows, z, n - 1, t);
      if rows[n - 1].courseZCode == z && rows[n - 1].objectiveText == t {
        assert t in TextsFor(rows, z, n);
      }
    }
  }

  /** Looking a code up with a default of `[]` gives its texts, whether or not
      the code is a key. */
  lemma GroupingGet(rows: seq<ObjectiveRow>, n: nat, z: string)
    requires n <= |rows|
    ensures GetOrEmpty(Grouping(rows, n), z) == TextsFor(rows, z, n)
  {
    CodesOfMembers(rows, n, z);
    TextsForEmpty(rows, z, n);
  }

  /** One iteration of the grouping loop: the row's text is appended to its
      code's list, which is created empty first when the code is new. */
  lemma GroupingStep(rows: seq<ObjectiveRow>, k: nat)
    requires k < |rows|
    ensures var z := rows[k].courseZCode;
            var m := Grouping(rows, k);
            var m' := if z in m then m else m[z := []];
            Grouping(rows, k + 1) == m'[z := m'[z] + [rows[k].objectiveText]]
  {
    var z := rows[k].courseZCode;
    var m := Grouping(rows, k);
    var m' := if z in m then m else m[z := []];
    var next := m'[z := m'[z] + [rows[k].objectiveText]];
    if z !in m {
      CodesOfMembers(rows, k, z);
      TextsForEmpty(rows, z, k);
    }
    var g := Grouping(rows, k + 1);
    assert g.Keys == next.Keys;
    forall y | y in next
      ensures g[y] == next[y]
    {
      assert g[y] == TextsFor(rows, y, k + 1);
    }
  }

  /** The total length of the lists of the codes `keys`. */
  function TotalTexts(rows: seq<ObjectiveRow>, keys: seq<string>, n: nat): nat
    requires n <= |rows|
  {
    if keys == [] then 0 else |TextsFor(rows, keys[0], n)| + TotalTexts(rows, keys[1..], n)
  }

  /** Adding row `n` lengthens the list of its code by one, if that code is
      among `keys`, and no other list. */
  lemma {:induction false} TotalTextsStep(rows: seq<ObjectiveRow>, keys: seq<string>, n: nat)
    requires n < |rows|
    requires forall i, j :: 0 <= i < j < |keys| ==> keys[i] != keys[j]
    ensures TotalTexts(rows, keys, n + 1) == TotalTexts(rows, keys, n) + (if rows[n].courseZCode in keys then 1 else 0)
  {
    if keys != [] {
      TotalTextsStep(rows, keys[1..], n);
      assert rows[n].courseZCode in keys <==> rows[n].courseZCode == keys[0] || rows[n].courseZCode in keys[1..];
      if rows[n].courseZCode == keys[0] {
        assert keys[0] !in keys[1..];
      }
    }
  }

  lemma {:induction false} TotalTextsAppend(rows: seq<ObjectiveRow>, keys: seq<string>, z: string, n: nat)
    requires n <= |rows|
    ensures TotalTexts(rows, keys + [z], n) == TotalTexts(rows, keys, n) + |TextsFor(rows, z, n)|
  {
    if keys != [] {
      assert (keys + [z])[1..] == keys[1..] + [z];
      TotalTextsAppend(rows, keys[1..], z, n);
    }
  }

  /** The lists of `objectives_by_course` hold every objective row once:
      their lengths add up to the number of rows. */
  lemma {:induction false} GroupingTotal(rows: seq<ObjectiveRow>, n: nat)
    requires n <= |rows|
    ensures TotalTexts(rows, CodesOf(rows, n), n) == n
  {
    if n > 0 {
      GroupingTotal(rows, n - 1);
      var codes := CodesOf(rows, n - 1);
      var z := rows[n - 1].courseZCode;
      CodesOfDistinct(rows, n - 1);
      TotalTextsStep(rows, codes, n - 1);
      if z in codes {
        assert CodesOf(rows, n) == codes;
        assert TotalTexts(rows, codes, n) == n;
      } else {
        assert CodesOf(rows, n) == codes + [z];
        assert TotalTexts(rows, codes, n) == n - 1;
        TotalTextsAppend(rows, codes, z, n);
        CodesOfMembers(rows, n - 1, z);
        TextsForEmpty(rows, z, n - 1);
        assert TextsFor(rows, z, n) == [rows[n - 1].objectiveText];
      }
    }
  }
}
