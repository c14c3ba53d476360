/**
 The detail pass over the course list: every course's syllabus page is
 fetched, and its objectives and learning contents are written into the
 course record in place. scraper.py (`scrape_courses_data`) gives every
 course both keys up front and fills them from its own page; main.py
 (`scrape_courses`) only writes them after a successful fetch, and takes the
 learning contents from a variable that outlives the iteration.
 */
module Detail {
  import opened Wrappers
  import opened Lists
  import opened Text
  import opened Records
  import opened Markup
  import opened Objectives
  import opened Extraction
  import opened Catalog

  // ---------------------------------------------------------------------------
  // scraper.py

  /** `after` is what one iteration of `scrape_courses_data` leaves in the
      course dictionary `before`: the defaults `[]` and `''` when no page is
      fetched, otherwise the page's objectives and learning contents. */
  ghost predicate NewerDetailed(before: Course, after: Course, respond: string -> Option<DetailPage>,
                                serialize: Node -> string)
  {
    match Fetch(respond, before.zCode)
    case None => after == before.(objectives := Some([]), learningContents := Some(""))
    case Some((page, _)) =>
      exists objs :: ObjectivesOf(page.objectivesDiv, objs)
        && after == before.(objectives := Some(objs), learningContents := Some(NewerContents(page.elements, serialize)))
  }

  /** One iteration of `scrape_courses_data`. */
  method NewerDetail(course: Course, respond: string -> Option<DetailPage>, serialize: Node -> string)
    returns (after: Course)
    ensures NewerDetailed(course, after, respond, serialize)
  {
    var soup, finalUrl := FetchWithSuffixes(respond, course.zCode);
    after := course.(objectives := Some([]), learningContents := Some(""));
    if soup.Some? {
      var cleanedObjectives := ExtractObjectives(soup.value.objectivesDiv);
      after := after.(objectives := Some(cleanedObjectives));
      var contents := CollectContents(soup.value.elements, serialize);
      after := after.(learningContents := Some(contents));
    }
  }

  /** `scrape_courses_data`: every course is updated from its own page. */
  method ScrapeCoursesData(courseData: array<Course>, respond: string -> Option<DetailPage>,
                           serialize: Node -> string)
    modifies courseData
    ensures forall i :: 0 <= i < courseData.Length ==>
              NewerDetailed(old(courseData[i]), courseData[i], respond, serialize)
  {
    ghost var cs := courseData[..];
    ghost var written := (b: Course, a: Course, j: nat) => NewerDetailed(b, a, respond, serialize);
    var i := 0;
    while i < courseData.Length
      invariant 0 <= i <= courseData.Length
      invariant Related(written, cs, courseData[..], i)
      invariant forall j :: i <= j < courseData.Length ==> courseData[j] == cs[j]
    {
      var course := courseData[i];
      assert course == cs[i];
      var after := NewerDetail(course, respond, serialize);
      RelatedUpdate(written, cs, courseData[..], after, i);
      courseData[i] := after;
      i := i + 1;
    }
    assert forall j :: 0 <= j < courseData.Length ==> written(cs[j], courseData[..][j], j);
  }

  /** The fields the overview pass filled in are untouched. */
  predicate SameOverview(before: Course, after: Course) {
    && after.zCode == before.zCode
    && after.courseName == before.courseName
    && after.phase == before.phase
    && after.phaseIsMandatory == before.phaseIsMandatory
    && after.semester == before.semester
  }

  /** After scraper.py's pass a course has both keys whatever happened, keeps
      its overview fields, and has empty values exactly when no page came. */
  lemma NewerDetailedKeys(before: Course, after: Course, respond: string -> Option<DetailPage>,
                          serialize: Node -> string)
    requires NewerDetailed(before, after, respond, serialize)
    ensures SameOverview(before, after)
    ensures HasDetail(after)
    ensures Fetch(respond, before.zCode).None? ==> after.objectives == Some([]) && after.learningContents == Some("")
    ensures Fetch(respond, before.zCode).Some? ==>
              (after.learningContents == Some("") <==>
                 forall d :: d in Fetch(respond, before.zCode).value.0.elements && IsContentDiv(d) ==>
                               Blank(serialize(CleanedContentDiv(d))))
  {
    if Fetch(respond, before.zCode).Some? {
      NewerContentsEmpty(Fetch(respond, before.zCode).value.0.elements, serialize);
    }
  }

  /** After scraper.py's pass a fetched course holds one stripped objective
      per candidate of its objectives tab, and exactly their normal forms. */
  lemma NewerDetailedObjectives(before: Course, after: Course, respond: string -> Option<DetailPage>,
                                serialize: Node -> string)
    requires NewerDetailed(before, after, respond, serialize)
    requires Fetch(respond, before.zCode).Some?
    ensures after.objectives.Some?
    ensures |after.objectives.value| == |CandidatesOf(Fetch(respond, before.zCode).value.0.objectivesDiv)|
    ensures forall o :: o in after.objectives.value <==>
              exists c :: c in CandidatesOf(Fetch(respond, before.zCode).value.0.objectivesDiv) && o == NormalizeObjective(c)
    ensures forall i :: 0 <= i < |after.objectives.value| ==> IsStripped(after.objectives.value[i])
  {
    var page := Fetch(respond, before.zCode).value.0;
    var objs :| ObjectivesOf(page.objectivesDiv, objs)
                && after == before.(objectives := Some(objs), learningContents := Some(NewerContents(page.elements, serialize)));
    ObjectivesOfSpec(page.objectivesDiv, objs);
  }

  // ---------------------------------------------------------------------------
  // main.py

  /** The learning contents main.py finds on a course's page: `None` when no
      page is fetched or the page has no `tab_inhoud_idp` element. */
  function PageContents(respond: string -> Option<DetailPage>, serialize: Node -> string, zCode: string): Option<string> {
    match Fetch(respond, zCode)
    case None => None
    case Some((page, _)) => OlderContents(page.elements, serialize)
  }

  function CoursePage(respond: string -> Option<DetailPage>, serialize: Node -> string): Course -> Option<string> {
    (c: Course) => PageContents(respond, serialize, c.zCode)
  }

  /** The value of `cleaned_contents` after the first `n` courses: the contents
      of the last of their pages that had any; `None` while it has never been
      assigned. */
  function Carried(cs: seq<Course>, n: nat, respond: string -> Option<DetailPage>, serialize: Node -> string): Option<string>
    requires n <= |cs|
  {
    LastSome(CoursePage(respond, serialize), cs, n)
  }

  /** `after` is what one iteration of main.py's `scrape_courses` leaves in
      `before`, where `carried` is `cleaned_contents` at the `update`. Without
      a page nothing is written; while `cleaned_contents` is unbound the
      `update` raises, the handler logs it and nothing is written either. */
  ghost predicate OlderDetailed(before: Course, after: Course, carried: Option<string>,
                                respond: string -> Option<DetailPage>, serialize: Node -> string)
  {
    match Fetch(respond, before.zCode)
    case None => after == before
    case Some((page, _)) =>
      if carried.None? then after == before
      else
        exists objs :: ObjectivesOf(page.objectivesDiv, objs)
          && after == before.(objectives := Some(objs), learningContents := Some(carried.value))
  }

  /** One iteration of main.py's `scrape_courses`, with `cleaned_contents`
      passed in and out. */
  method OlderDetail(course: Course, carried: Option<string>, respond: string -> Option<DetailPage>,
                     serialize: Node -> string)
    returns (after: Course, carriedAfter: Option<string>)
    ensures carriedAfter == if CoursePage(respond, serialize)(course).Some?
                            then CoursePage(respond, serialize)(course) else carried
    ensures OlderDetailed(course, after, carriedAfter, respond, serialize)
  {
    after := course;
    carriedAfter := carried;
    var soup, finalUrl := FetchWithSuffixes(respond, course.zCode);
    if soup.Some? {
      var cleanedObjectives := ExtractObjectives(soup.value.objectivesDiv);
      var contents := FindContents(soup.value.elements, serialize);
      if contents.Some? {
        carriedAfter := contents;
      }
      if carriedAfter.Some? {
        after := course.(objectives := Some(cleanedObjectives), learningContents := Some(carriedAfter.value));
      }
    }
  }

  /** main.py's `scrape_courses`: course `i` is written with the contents of
      the last page among courses `0..i` that had any. */
  method ScrapeCourses(courseData: array<Course>, respond: string -> Option<DetailPage>, serialize: Node -> string)
    modifies courseData
    ensures forall i :: 0 <= i < courseData.Length ==>
              OlderDetailed(old(courseData[i]), courseData[i], Carried(old(courseData[..]), i + 1, respond, serialize),
                            respond, serialize)
  {
    ghost var cs := courseData[..];
    OlderPass(courseData, respond, serialize);
    assert forall j :: 0 <= j < courseData.Length ==> OlderWritten(cs, respond, serialize)(cs[j], courseData[..][j], j);
  }

  /** The loop of `scrape_courses`, course after course, with
      `cleaned_contents` carried from one iteration to the next. */
  method OlderPass(courseData: array<Course>, respond: string -> Option<DetailPage>, serialize: Node -> string)
    modifies courseData
    ensures Related(OlderWritten(old(courseData[..]), respond, serialize), old(courseData[..]), courseData[..], courseData.Length)
  {
    ghost var cs := courseData[..];
    ghost var written := OlderWritten(cs, respond, serialize);
    var cleanedContents: Option<string> := None;
    var i := 0;
    while i < courseData.Length
      invariant 0 <= i <= courseData.Length
      invariant Related(written, cs, courseData[..], i)
      invariant forall j :: i <= j < courseData.Length ==> courseData[j] == cs[j]
      invariant cleanedContents == Carried(cs, i, respond, serialize)
    {
      var course := courseData[i];
      assert course == cs[i];
      var after, carried := OlderIteration(course, cleanedContents, cs, i, respond, serialize);
      RelatedUpdate(written, cs, courseData[..], after, i);
      courseData[i] := after;
      cleanedContents := carried;
      i := i + 1;
    }
  }

  /** Iteration `i` of `scrape_courses`: `cleaned_contents` moves on by one
      course, and course `i` is written as `OlderWritten` says. */
  method OlderIteration(course: Course, cleanedContents: Option<string>, ghost cs: seq<Course>, ghost i: nat,
                        respond: string -> Option<DetailPage>, serialize: Node -> string)
    returns (after: Course, carried: Option<string>)
    requires i < |cs| && course == cs[i] && cleanedContents == Carried(cs, i, respond, serialize)
    ensures carried == Carried(cs, i + 1, respond, serialize)
    ensures OlderWritten(cs, respond, serialize)(cs[i], after, i)
  {
    after, carried := OlderDetail(course, cleanedContents, respond, serialize);
    OlderStep(cs, i, after, cleanedContents, carried, respond, serialize);
  }

  /** The relation `scrape_courses` establishes between course `j` before and
      after the pass. */
  ghost function OlderWritten(cs: seq<Course>, respond: string -> Option<DetailPage>, serialize: Node -> string)
    : (Course, Course, nat) -> bool
  {
    (b: Course, a: Course, j: nat) =>
      j < |cs| && OlderDetailed(b, a, Carried(cs, j + 1, respond, serialize), respond, serialize)
  }

  /** One iteration of `scrape_courses` moves `cleaned_contents` on by one
      course and writes that course as `OlderWritten` says. */
  lemma OlderStep(cs: seq<Course>, i: nat, after: Course, carriedBefore: Option<string>, carried: Option<string>,
                  respond: string -> Option<DetailPage>, serialize: Node -> string)
    requires i < |cs| && carriedBefore == Carried(cs, i, respond, serialize)
    requires carried == if CoursePage(respond, serialize)(cs[i]).Some?
                        then CoursePage(respond, serialize)(cs[i]) else carriedBefore
    requires OlderDetailed(cs[i], after, carried, respond, serialize)
    ensures carried == Carried(cs, i + 1, respond, serialize)
    ensures OlderWritten(cs, respond, serialize)(cs[i], after, i)
  {
  }

  /** `cleaned_contents` is unbound exactly while no page so far had contents,
      and otherwise holds the contents of the last such page. */
  lemma CarriedSpec(cs: seq<Course>, n: nat, respond: string -> Option<DetailPage>, serialize: Node -> string)
    requires n <= |cs|
    ensures Carried(cs, n, respond, serialize).None? <==>
              forall j :: 0 <= j < n ==> PageContents(respond, serialize, cs[j].zCode).None?
    ensures Carried(cs, n, respond, serialize).Some? ==>
              exists j :: 0 <= j < n && Carried(cs, n, respond, serialize) == PageContents(respond, serialize, cs[j].zCode)
                          && forall k :: j < k < n ==> PageContents(respond, serialize, cs[k].zCode).None?
  {
    LastSomeSpec(CoursePage(respond, serialize), cs, n);
  }

  /** main.py's pass leaves the overview fields alone, and either writes both
      keys or leaves the course as it was. */
  lemma OlderDetailedKeeps(before: Course, after: Course, carried: Option<string>,
                           respond: string -> Option<DetailPage>, serialize: Node -> string)
    requires OlderDetailed(before, after, carried, respond, serialize)
    ensures SameOverview(before, after)
    ensures after == before || (after.objectives.Some? && after.learningContents == carried && carried.Some?)
    ensures Fetch(respond, before.zCode).Some? && carried.Some? ==> after.learningContents == carried
  {
  }

  /** main.py reuses stale contents: when course `j`'s page had contents and
      the pages of the courses after it up to `i` had none, `cleaned_contents`
      holds course `j`'s contents when course `i` is written, so a fetched
      course `i` gets them (`OlderDetailedKeeps`). */
  lemma StaleContents(cs: seq<Course>, j: nat, i: nat, respond: string -> Option<DetailPage>, serialize: Node -> string)
    requires j < i < |cs|
    requires PageContents(respond, serialize, cs[j].zCode).Some?
    requires forall k :: j < k <= i ==> PageContents(respond, serialize, cs[k].zCode).None?
    ensures Carried(cs, i + 1, respond, serialize) == PageContents(respond, serialize, cs[j].zCode)
  {
    var f := CoursePage(respond, serialize);
    assert forall k :: j < k < i + 1 ==> f(cs[k]).None?;
    LastSomeIs(f, cs, j, i + 1);
  }

  /** main.py leaves course `i` untouched, objectives included, while no page
      up to it had contents: `cleaned_contents` is still unbound when the
      course would be written (`OlderDetailedKeeps`). */
  lemma UnboundContents(cs: seq<Course>, i: nat, respond: string -> Option<DetailPage>, serialize: Node -> string)
    requires i < |cs|
    requires forall k :: 0 <= k <= i ==> PageContents(respond, serialize, cs[k].zCode).None?
    ensures Carried(cs, i + 1, respond, serialize).None?
  {
    CarriedSpec(cs, i + 1, respond, serialize);
  }

  // ---------------------------------------------------------------------------
  // main.py's iteration as evidently intended

  /** The contents of a page's first `tab_inhoud_idp` element, `''` without one. */
  function OwnContents(elements: seq<Node>, serialize: Node -> string): string {
    match OlderContents(elements, serialize)
    case None => ""
    case Some(s) => s
  }

  /** One iteration of main.py's `scrape_courses` with both keys given
      defaults first, as scraper.py does, and `cleaned_contents` set afresh
      for every course. */
  ghost predicate FixedDetailed(before: Course, after: Course, respond: string -> Option<DetailPage>,
                                serialize: Node -> string)
  {
    match Fetch(respond, before.zCode)
    case None => after == before.(objectives := Some([]), learningContents := Some(""))
    case Some((page, _)) =>
      exists objs :: ObjectivesOf(page.objectivesDiv, objs)
        && after == before.(objectives := Some(objs), learningContents := Some(OwnContents(page.elements, serialize)))
  }

  method FixedDetail(course: Course, respond: string -> Option<DetailPage>, serialize: Node -> string)
    returns (after: Course)
    ensures FixedDetailed(course, after, respond, serialize)
  {
    var soup, finalUrl := FetchWithSuffixes(respond, course.zCode);
    after := course.(objectives := Some([]), learningContents := Some(""));
    if soup.Some? {
      var cleanedObjectives := ExtractObjectives(soup.value.objectivesDiv);
      var contents := FindContents(soup.value.elements, serialize);
      var cleanedContents := "";
      if contents.Some? {
        cleanedContents := contents.value;
      }
      after := after.(objectives := Some(cleanedObjectives), learningContents := Some(cleanedContents));
    }
  }

  /** With the fix every course has both keys, so main.py's `insert_data`
      cannot raise, and its contents come from its own page alone: they are
      that page's contents when it has any, and empty otherwise. */
  lemma FixedDetailedSpec(before: Course, after: Course, respond: string -> Option<DetailPage>,
                          serialize: Node -> string)
    requires FixedDetailed(before, after, respond, serialize)
    ensures SameOverview(before, after)
    ensures HasDetail(after)
    ensures PageContents(respond, serialize, before.zCode).Some? ==>
              after.learningContents == PageContents(respond, serialize, before.zCode)
    ensures PageContents(respond, serialize, before.zCode).None? ==> after.learningContents == Some("")
  {
  }
}
