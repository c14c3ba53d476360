# ECTS course scraper — a Dafny model

The repository scrapes the course catalogue of a Thomas More study programme.

1. An overview page lists the courses of the programme as table rows under `<h3>` headings. Each row gives a course code (the "Z-code"), a name, phase icons and a semester icon.
2. For every course a syllabus page is fetched. Its learning objectives and learning contents are extracted.
3. Everything is written to two SQLite tables, `courses` and `objectives`.
4. A FastAPI endpoint reads the two tables back and returns every course with the texts of its objectives.

There are two generations of the pipeline:

- `scraper.py` (newer): `scrape_courses`, `scrape_courses_data`, `insert_data`;
- `main.py` (older): `scrape_z_codes`, `scrape_courses`, `insert_data`.

They share the string helpers `clean_and_join_objectives`, `clean_text`, `is_valid_objective` and `is_element_hidden`, and those are textually identical in both files. The read side is `get_courses_with_objectives` in `api.py`.

This project models that logic in Dafny and proves what it does.

- HTML pages come in as values: an overview page as its headings with their rows, a syllabus page as its objectives tab and its elements.
- HTTP is a function `respond` from URL to parsed page, or `None` when the request fails.
- Turning a tag back into HTML (`str(tag)`) is a function `serialize`.
- The course dictionaries that the detail passes update in place are an `array<Course>`. A key that is missing from a dictionary is `None`.
- The database is a class `CatalogDb` with two fields: the `courses` table as a map keyed by Z-code, and the `objectives` table as a sequence in insertion order.

Modules, one file each:

- `text.dfy` (`Text`): the Python string operations used. These are `strip`, `lower`, `split`, `join`, `replace`, digit runs and `str`/`int` of naturals.
- `lists.dfy` (`Lists`): generic list, set and loop facts that the other modules instantiate.
- `objectives.dfy` (`Objectives`): `clean_and_join_objectives`, `clean_text`, `is_valid_objective`.
- `markup.dfy` (`Markup`): elements and attributes, `is_element_hidden`, removal of `print_only` tags, attribute filtering.
- `icons.dfy` (`Icons`): the three icon regexes, with the leftmost-match semantics of `re.search`.
- `records.dfy` (`Records`): the course dictionary.
- `overview.dfy` (`Overview`): scraper.py's `scrape_courses` and main.py's `scrape_z_codes`.
- `extraction.dfy` (`Extraction`): `fetch_with_suffixes`, plus the objectives and contents extraction of both detail passes.
- `detail.dfy` (`Detail`): scraper.py's `scrape_courses_data` and main.py's `scrape_courses`.
- `catalog.dfy` (`Catalog`): both `insert_data` functions.
- `api.dfy` (`Api`): `get_courses_with_objectives`.

Where the code's own comments and what it does differ, the model follows the code. Some facts about the code are easy to misread:

- The comment at scraper.py:50 says a trailing period is removed "if it exists". `rstrip('.')` removes every trailing `.`, not just one.
- The comment at scraper.py:64 speaks of numbered-list markers. Only the bullet alternative `^[•\-*]` is anchored, so at most one leading `•`, `-` or `*` goes. The alternative `\d+\.?\)?\s*` is not anchored, so every digit run anywhere in the text is deleted, with an optional `.`, an optional `)` and the whitespace after it. The statements after the `return` in `clean_text` are unreachable and are not modelled.
- The overview loop never resets `phase` and `phase_is_mandatory`. A row whose phase icons do not decode inherits the phase of earlier rows. A coded row seen before any phase was decoded raises `NameError`, and `except Exception` turns the whole overview into `[]`.
- main.py's `scrape_z_codes` finds its heading by substring, while scraper.py compares the stripped heading text for equality. main.py gives a missing name as `""`, keeps the semester as a digit string that carries over from row to row, and emits rows whose code text is empty.

## Model

| member | source | states |
|---|---|---|
| Objectives.CleanAndJoinObjectives | scraper.py:37-59 | one output per input, at the same position, each the normal form of its input (identical to main.py:30-52) |
| Objectives.CleanObjective | scraper.py:42-57 | one objective: stripped, start phrases removed, every trailing period removed, stripped again, first character upper-cased |
| Objectives.RemoveStartPhrases | scraper.py:45-48 | the start phrases are applied one after the other in list order |
| Objectives.StripStartPhraseSpec | scraper.py:47-48 | `^\bphrase\b\s+` (ignoring case) changes the text exactly when the text begins with the phrase followed by whitespace; it then removes the phrase and the whole whitespace run after it |
| Objectives.PhrasesInOrder | scraper.py:33 | the phrases are tried in the order 'de student', 'je', 'you', each once |
| Objectives.NormalizedShape | scraper.py:51-55 | a normalised objective has no surrounding whitespace, does not begin with a lower-case letter and is no longer than the stripped input |
| Objectives.NormalFormIsFixedPoint | scraper.py:42-57 | text that is already stripped, capitalised, without trailing period and without a start phrase is left unchanged |
| Objectives.BlankBecomesEmpty | scraper.py:42-57 | an all-whitespace objective becomes `""` |
| Objectives.AllTrailingPeriodsDropped | scraper.py:51 | every trailing period goes, not only the last |
| Objectives.DropsLeadingJe | scraper.py:45-55 | "Je " followed by clean text becomes that text with a capital |
| Objectives.NormalizeIsNotIdempotent | scraper.py:45-48 | for clean `w`, "you je " + `w` normalises to "Je " + `w`, which normalises further to `w` capitalised: removing "you" can uncover a "je" that was already tried |
| Objectives.DeleteOrdinalsSpec | scraper.py:65 | deleting the digit runs leaves no digit, only deletes characters, and leaves digit-free text alone |
| Objectives.DeleteOrdinalsKeepsPrefix | scraper.py:65 | text without digits in front of the rest is kept unchanged; only the rest is substituted |
| Objectives.DeleteOrdinalsDropsOrdinal | scraper.py:65 | a digit run, with an optional `.`, an optional `)` and its trailing whitespace, is deleted as a whole, and the text after it goes on being substituted |
| Objectives.CleanTextSpec | scraper.py:63-65 | `clean_text` leaves no digit. Its result is a subsequence of the stripped text minus one leading bullet, and equals that text when it has no digit (identical to main.py:56-58) |
| Objectives.CleanTextRemovesOneBullet | scraper.py:65 | of a doubled bullet only the first is removed |
| Objectives.AnyStartsWithSpec | scraper.py:232 | `any(normalized.startswith(phrase.lower()) ...)` holds exactly when some phrase of the list, lower-cased, is a prefix |
| Objectives.ValidObjectiveSpec | scraper.py:211-239 | valid exactly when the stripped text has at least ten characters and its lower-case form starts with none of the filter phrases (identical to main.py:198-226) |
| Objectives.InHeadingIsFiltered | scraper.py:217 | text starting "In " is rejected |
| Objectives.InWordPasses | scraper.py:217 | a word merely starting with "In" is not rejected by that phrase |
| Objectives.StudentHeadingIsFiltered | scraper.py:214 | text starting "De student:" is rejected |
| Objectives.StudentWithoutColonPasses | scraper.py:214-216 | "De student " without the colon passes the filter |
| Objectives.ValidObjectiveCanNormaliseToEmpty | scraper.py:226-235 | "je " followed by seven or more periods passes the filter and still normalises to `""` |
| Markup.HiddenIffSomeCheck | scraper.py:178-207 | an element is hidden exactly when one of the five checks holds: style, class, `hidden`, `aria-hidden`, a `data-` attribute (identical to main.py:165-194) |
| Markup.BareElementIsVisible | scraper.py:207 | an element without attributes is visible |
| Markup.HiddenIsMonotone | scraper.py:178-207 | adding attributes or classes never makes a hidden element visible |
| Markup.DataVisibleFalseHides | scraper.py:202-205 | `data-visible="false"` in any case hides the element |
| Markup.StyleWithoutSpaceDoesNotHide | scraper.py:181-184 | a style without spaces, such as `display:none`, never hides |
| Markup.RemovePrintOnlyLeavesNone | scraper.py:303-304 | after decomposing, no `print_only` tag is left at any depth |
| Markup.RemovePrintOnlyKeepsClean | scraper.py:303-304 | a subtree without `print_only` tags is left unchanged |
| Markup.RemovePrintOnlyAppend | scraper.py:303-304 | the removal works node by node: the two parts of a forest are cleaned independently and stay in order |
| Markup.RemovePrintOnlyNode | scraper.py:303-304 | a `print_only` tag disappears with its subtree; a text node survives as it is; any other tag keeps its name and attributes, and its children are cleaned the same way |
| Markup.RemovePrintOnlyIdempotent | scraper.py:303-304 | decomposing twice removes nothing more |
| Markup.KeepAllowedAttributes | scraper.py:307-310 | the kept attributes are exactly those whose names are allowed, with their values unchanged |
| Icons.Search | scraper.py:129 | a match captures a non-empty digit run, plus a letter exactly for the marked pattern |
| Icons.MatchAtSuffix | scraper.py:129 | whether a pattern matches at a position depends only on the text from that position on |
| Icons.SearchFindsFirst | scraper.py:129 | a match at `j` with none before it is the one `re.search` returns |
| Icons.SearchSpec | scraper.py:129 | `re.search` finds nothing exactly when no position matches; otherwise it gives the match at the leftmost matching position |
| Icons.MarkedRoundTrip | scraper.py:129-134 | `icon-fase<N>-m.png` decodes to (N, true) and `icon-fase<N>-o.png` to (N, false), after any path and before any suffix, when nothing earlier in the source matches |
| Icons.PlainRoundTrip | scraper.py:136-141 | `icon-fase<N>.png` decodes to (N, false) through the fallback pattern |
| Icons.SemesterRoundTrip | scraper.py:154-156 | `icon-semester-<N>.png` gives back the digits of N, whose `int` is N, after any path and before any suffix, when nothing earlier in the source matches |
| Overview.DecodeFaseIcons | scraper.py:124-146 | the fase-icon loop gives the phase the icons leave, one icon after another |
| Overview.PhaseAfterIconsIsLast | scraper.py:124-146 | within a row the last decodable icon wins; with none, the earlier phase stays |
| Overview.NewerRow | scraper.py:110-165 | one pass of the row loop: the state it moves to, or a raise |
| Overview.NewerRows | scraper.py:109-165 | the row loop under one header |
| Overview.ScrapeCourses | scraper.py:76-175 | `scrape_courses` returns exactly what the overview specification gives |
| Overview.OlderRow | main.py:92-152 | one pass of main.py's row loop |
| Overview.ScrapeZCodes | main.py:69-162 | `scrape_z_codes` returns exactly what the overview specification gives |
| Overview.RowStepSpec | scraper.py:109-165 | each row moves the loop from one expected state to the next, or raises exactly when that row uses an unbound variable |
| Overview.NewerRowSpec | scraper.py:110-165 | a decoded scraper.py row reaches the expected state or raises exactly when it should |
| Overview.OlderRowSpec | main.py:93-152 | a decoded main.py row does the same, including a missing sem cell and an unbound semester |
| Overview.RowsFromSpec | scraper.py:109-175 | the row loop raises exactly when some row raises; otherwise it yields one course per producing row, in order, each with the phase of the last decodable icon so far |
| Overview.HeadersFromIsRowsFrom | scraper.py:95-107 | the header loop is the row loop over the found sections in header order, its variables carried across sections |
| Overview.NewerOverviewSpec | scraper.py:87-175 | `[]` without a page or when a row raises; otherwise one course per producing row under the found headers |
| Overview.OlderOverviewSpec | main.py:70-162 | `[]` without a page, heading or `<li>`, or when a row raises; otherwise one course per row with a code cell |
| Overview.RecordAtCode | scraper.py:114-115 | a course's code is its row's stripped code text |
| Overview.NewerCodesNonEmpty | scraper.py:158 | every course scraper.py returns has a non-empty, stripped code |
| Extraction.FetchWithSuffixes | scraper.py:243-255 | the page and URL of the first suffix whose request succeeds, or none |
| Extraction.FetchSpec | scraper.py:244-255 | there is no page only when all of N, E and no suffix fail; otherwise the page comes from the first suffix that answers |
| Lists.AddImages | scraper.py:274-278 | the list-item loop adds exactly the accepted images of the items |
| Extraction.AddParagraph | scraper.py:282-289 | one paragraph adds exactly the accepted cleaned pieces |
| Extraction.AddParagraphs | scraper.py:280-289 | the paragraph loop adds the pieces of every paragraph |
| Extraction.CollectCandidates | scraper.py:273-289 | the `objectives` set ends up as the candidate set of the tab |
| Extraction.PieceCandidatesSpec | scraper.py:282-289 | a paragraph contributes exactly the accepted cleaned texts of its `<br>` pieces |
| Extraction.CandidatesSpec | scraper.py:273-289 | a text is a candidate exactly when an accepted list item or a paragraph piece gives it |
| Extraction.CandidatesAreValid | scraper.py:277-288 | every candidate is non-empty and valid, so its stripped length is at least ten |
| Extraction.ListOf | scraper.py:291 | `list(set)` lists every element once, in an unspecified order |
| Extraction.ExtractObjectives | scraper.py:270-291 | the objectives are the normalised candidates in some order of the set (identical to main.py:255-279) |
| Extraction.ObjectivesOfSpec | scraper.py:270-292 | one objective per candidate, exactly the normal forms of the candidates, each stripped; repeats are possible |
| Extraction.NoTabNoObjectives | scraper.py:271-273 | a page without an objectives tab gives no objectives |
| Extraction.CleanContentDiv | scraper.py:303-313 | a content div is serialised after its `print_only` descendants and all attributes except id and class are removed |
| Extraction.CollectContents | scraper.py:295-318 | the learning contents are the newline join of the non-blank cleaned content divs |
| Extraction.NewerContentsEmpty | scraper.py:298-318 | the contents are empty exactly when every content div serialises blank |
| Extraction.FindContents | main.py:282-294 | main.py's contents come from the first `tab_inhoud_idp` element |
| Extraction.OlderContentsSpec | main.py:282-294 | none exactly when no element qualifies; otherwise the first qualifying element, cleared of attributes and `print_only` tags |
| Detail.NewerDetail | scraper.py:259-323 | one course: defaults first, then the page's objectives and contents |
| Detail.ScrapeCoursesData | scraper.py:258-327 | every course in the array is updated from its own page, in place |
| Detail.NewerDetailedKeys | scraper.py:263-318 | both keys are always present and the overview fields are untouched. Without a page the values are `[]` and `''`; with a page the contents are `''` exactly when every content div is blank |
| Detail.NewerDetailedObjectives | scraper.py:267-292 | a fetched course gets one stripped objective per candidate, exactly their normal forms |
| Detail.OlderDetail | main.py:249-310 | one course of main.py's pass, with `cleaned_contents` carried in and out |
| Detail.ScrapeCourses | main.py:246-312 | course i is written with the contents of the last page among courses 0..i that had any |
| Detail.CarriedSpec | main.py:282-304 | `cleaned_contents` is unbound exactly while no page so far had contents; otherwise it holds the last such page's contents |
| Detail.OlderDetailedKeeps | main.py:252-310 | main.py writes both keys, with the carried contents, or leaves the course as it was |
| Detail.StaleContents | main.py:285-304 | a course whose page has no contents element gets the contents of the last earlier page that had one |
| Detail.UnboundContents | main.py:285-308 | until some page has a contents element, fetched courses are left without `objectives` and `learning_contents` |
| Detail.FixedDetail | main.py:249-304 | main.py's pass with defaults and per-course contents |
| Detail.FixedDetailedSpec | main.py:282-304 | with the fix every course has both keys, and its contents come from its own page only |
| Catalog.RowOf | scraper.py:390-397 | the `courses` row of a course: its overview fields, and `learning_contents` or `''` |
| Catalog.CatalogDb.constructor | main.py:316-356 | after the drops and creates, both tables are empty |
| Catalog.CatalogDb.AppendObjectives | scraper.py:400-406 | one objective row per non-empty objective, in list order, appended |
| Catalog.CatalogDb.InsertCourse | scraper.py:389-406 | one course: the row upserted by Z-code and its objective rows appended |
| Catalog.CatalogDb.InsertData | scraper.py:388-408 | all courses upserted in order; objective rows appended course by course |
| Catalog.CatalogDb.OlderInsertData | main.py:387-403 | raises exactly when some course lacks a key, and then nothing is stored; otherwise it stores what scraper.py's `insert_data` stores |
| Catalog.UpsertedKeys | scraper.py:390-397 | a Z-code has a row exactly when it had one before or some course carries it |
| Catalog.LastWriteWins | scraper.py:390-397 | `INSERT OR REPLACE`: the last course with a Z-code decides its row |
| Catalog.UntouchedKept | scraper.py:390-397 | rows of Z-codes no course carries are unchanged |
| Catalog.ObjectiveRowsOfMembers | scraper.py:400-404 | the rows written for one course are exactly its non-empty objectives, each under the course's Z-code |
| Catalog.NewRowsMembers | scraper.py:400-406 | the new objective rows are exactly the non-empty objectives of the courses, under their Z-codes |
| Api.GroupObjectives | api.py:22-27 | the grouping loop builds the map from each code to its texts |
| Api.MergeObjectives | api.py:30-34 | one dictionary per course row, in order, with `.get(z_code, [])` attached |
| Api.GetCoursesWithObjectives | api.py:8-37 | every course row, unchanged and in order, with exactly the texts of its own objective rows, in row order |
| Api.CodesOfMembers | api.py:22-27 | a code is a key exactly when some objective row carries it |
| Api.CodesOfDistinct | api.py:25-26 | the keys are distinct |
| Api.TextsForEmpty | api.py:33 | a course gets `[]` exactly when no objective row carries its code |
| Api.TextsForMembers | api.py:27 | a course's list holds exactly the texts of the rows with its code, so rows of unknown codes appear nowhere |
| Api.GroupingGet | api.py:33 | the lookup with default `[]` gives the course's texts |
| Api.GroupingStep | api.py:24-27 | one loop step appends the row's text to its code's list, creating the list first when the code is new |
| Api.GroupingTotal | api.py:22-27 | the list lengths of the grouping add up to the number of objective rows |
| Text.StripSpec | scraper.py:42 | `strip` leaves no whitespace at either end and removes only a prefix and a suffix |
| Text.JoinSplit | scraper.py:283 | joining the pieces of `split` with the separator gives back the text |
| Text.DecimalRoundTrip | scraper.py:156 | `int` of the digits of N is N |

## Left out

- HTTP (`requests.get`, `raise_for_status`) is the parameter `respond`. A failed request is `None`.
- BeautifulSoup is abstracted as follows:
  - `find`, `find_all` and `get_text` are replaced by the page values the passes read;
  - `str(tag)` is the uninterpreted `serialize`;
  - a tag's children are part of the node, but the nesting of content divs inside one another is not modelled.
- `decompose` and the `attrs` edits mutate the parse tree. They are modelled as functions on nodes. The tree being shared with later `find_all` calls is not modelled.
- Python's Unicode `lower`/`upper` and `re.IGNORECASE` are reduced to ASCII letters. `\d` means ASCII digits, and `\s` and `strip` mean the characters of `str.isspace()`.
- The order in which a Python `set` is iterated is not modelled: any order is allowed.
- The rows returned by `SELECT *` and `SELECT course_z_code, objective_text` are taken as given sequences, in whatever order SQLite returns them.
- `setup_database` is not modelled, except that its tables start empty. That covers the DDL, dropping tables, `connect`, `commit` and `close`.
- Catalog.CatalogDb.InsertData: modelled as if scraper.py's `setup_database` had created the tables. As written, the DDL at scraper.py:351-352 has no comma between `language TEXT` and `UNIQUE(z_code, course_name)`. SQLite then parses `UNIQUE` as a column constraint and stops at the `(` with a syntax error. That happens after the four `DROP TABLE` statements and is not caught, so scraper.py's `main` (scraper.py:424-427) never reaches `insert_data` and leaves no `courses` table. main.py:326-334 has the comma.
- Column affinity is not modelled. SQLite stores a value in an `INTEGER` or `BOOLEAN` column as an integer when it can: main.py's semester digit string `"1"` becomes `1`, and `phase_is_mandatory` becomes `0` or `1`. The model keeps the Python values as they were written.
- Markup.IsElementHidden: the loop over `element.attrs.items()` (scraper.py:202-205) is stated as an existential over the attribute names. Its early `return True` makes the result independent of the dictionary's order.
- Logging, `print` and the warnings filter are not modelled.
- The FastAPI route and `JSONResponse` (api.py:41-47) are not modelled.
- models/course.py declares types only and is not part of this model.
- The commented-out `insert_fake_connections` is not part of this model.
- Aliasing between course dictionaries is not modelled: each is a value in the array.
- Exceptions other than the unbound variables, the missing sem cell and the missing keys are not modelled. For example, an exception raised inside BeautifulSoup is left out.

## Findings

| source | as written | input that shows it | evidently intended | confidence | as-written member | corrected member |
|---|---|---|---|---|---|---|
| main.py:282-304 | `cleaned_contents` is only assigned when a `tab_inhoud_idp` element exists, and it is not reset per course | course j's page has such an element; course i > j is fetched, and its page and those in between have none. Course i is stored with course j's contents | each course gets its own page's contents, or none | high (not executed) | Detail.StaleContents | Detail.FixedDetailedSpec |
| main.py:285-304, 387-393 | before any page had such an element, `course.update` raises `UnboundLocalError`, which is caught, so the course keeps no `objectives` or `learning_contents` key; `insert_data` then raises `KeyError` before its commit | the first fetched course's page has no `tab_inhoud_idp` element. Nothing is stored at all | every course gets both keys, with defaults, as scraper.py does | high (not executed) | Detail.UnboundContents, Catalog.CatalogDb.OlderInsertData | Detail.FixedDetailedSpec |
