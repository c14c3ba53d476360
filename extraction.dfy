/**
 What the detail pass takes from one syllabus page: the learning objectives
 (list items and `<br>`-separated paragraph fragments of the objectives tab,
 validated, collected into a set and normalised) and the learning contents
 (scraper.py: every content div, cleaned and serialised, joined by newlines;
 main.py: the first `tab_inhoud_idp` element, cleaned and serialised). The
 page is fetched from the first of three syllabus URLs that answers.

 A page is given as the parts of the parse tree the pass looks at; turning a
 tag back into HTML (`str(tag)`) is the parameter `serialize`.
 */
module Extraction {
  import opened Text
  import opened Wrappers
  import opened Lists
  import opened Markup
  import opened Objectives

  /** The objectives tab: `get_text()` of every `<li>` in it, and
      `get_text(separator='<br>')` of every `<p>` in it, in document order. */
  datatype ObjectivesBlock = ObjectivesBlock(listItems: seq<string>, paragraphs: seq<string>)

  /** A syllabus page: the first element whose id starts with
      `tab_doelstellingen_idp`, if any, and every element of the page in
      document order. */
  datatype DetailPage = DetailPage(objectivesDiv: Option<ObjectivesBlock>, elements: seq<Node>)

  const Nbsp: char := '\U{a0}'

  const BrSeparator: string := "<br>"

  // ---------------------------------------------------------------------------
  // Fetching

  const SyllabusBase: string := "https://onderwijsaanbodkempen.thomasmore.be/2024/syllabi/n/"

  /** The URL suffixes tried, in this order. */
  const Suffixes: seq<string> := ["N", "E", ""]

  function SyllabusUrl(zCode: string, suffix: string): string {
    SyllabusBase + zCode + suffix + ".htm"
  }

  /** `fetch_with_suffixes` from suffix `k` on: the page and URL of the first
      suffix whose request succeeds. `respond` gives the parsed page a URL
      answers with, `None` when the request fails. */
  function FetchFrom(respond: string -> Option<DetailPage>, zCode: string, k: nat): Option<(DetailPage, string)>
    requires k <= |Suffixes|
    decreases |Suffixes| - k
  {
    if k == |Suffixes| then None
    else
      var url := SyllabusUrl(zCode, Suffixes[k]);
      if respond(url).Some? then Some((respond(url).value, url)) else FetchFrom(respond, zCode, k + 1)
  }

  function Fetch(respond: string -> Option<DetailPage>, zCode: string): Option<(DetailPage, string)> {
    FetchFrom(respond, zCode, 0)
  }

  /** `fetch_with_suffixes`. */
  method FetchWithSuffixes(respond: string -> Option<DetailPage>, zCode: string)
    returns (soup: Option<DetailPage>, finalUrl: Option<string>)
    ensures soup.Some? <==> finalUrl.Some?
    ensures soup.Some? ==> Fetch(respond, zCode) == Some((soup.value, finalUrl.value))
    ensures soup.None? ==> Fetch(respond, zCode).None?
  {
    for k := 0 to |Suffixes|
      invariant Fetch(respond, zCode) == FetchFrom(respond, zCode, k)
    {
      var url := SyllabusUrl(zCode, Suffixes[k]);
      var response := respond(url);
      if response.Some? {
        return response, Some(url);
      }
    }
    return None, None;
  }

  /** The page comes from the first suffix, in the order N, E and none, whose
      URL answers; there is none only when all three fail. */
  lemma FetchSpec(respond: string -> Option<DetailPage>, zCode: string)
    ensures Fetch(respond, zCode).None? <==>
              forall k :: 0 <= k < |Suffixes| ==> respond(SyllabusUrl(zCode, Suffixes[k])).None?
    ensures Fetch(respond, zCode).Some? ==>
              exists k :: 0 <= k < |Suffixes|
                          && Fetch(respond, zCode).value.1 == SyllabusUrl(zCode, Suffixes[k])
                          && respond(SyllabusUrl(zCode, Suffixes[k])) == Some(Fetch(respond, zCode).value.0)
                          && forall j :: 0 <= j < k ==> respond(SyllabusUrl(zCode, Suffixes[j])).None?
  {
    var u0, u1, u2 := SyllabusUrl(zCode, Suffixes[0]), SyllabusUrl(zCode, Suffixes[1]), SyllabusUrl(zCode, Suffixes[2]);
    assert FetchFrom(respond, zCode, 3).None?;
    if respond(u0).Some? {
      assert Fetch(respond, zCode).value.1 == u0;
    } else if respond(u1).Some? {
      assert Fetch(respond, zCode).value.1 == u1;
    } else if respond(u2).Some? {
      assert Fetch(respond, zCode).value.1 == u2;
    }
  }

  // ---------------------------------------------------------------------------
  // Objectives

  /** The text a list item offers: stripped, no-break spaces made plain. */
  function ListItemText(raw: string): string {
    ReplaceChar(Strip(raw), Nbsp, ' ')
  }

  /** The pieces of a paragraph: its stripped text split at the separator. */
  function Fragments(paragraph: string): seq<string> {
    Split(Strip(paragraph), BrSeparator)
  }

  /** The text a paragraph piece offers: stripped, no-break spaces made plain,
      then `clean_text`. */
  function FragmentText(raw: string): string {
    CleanText(ReplaceChar(Strip(raw), Nbsp, ' '))
  }

  /** The test both loops apply before adding a text to the set. */
  predicate Accepted(text: string) {
    text != [] && IsValidObjective(text)
  }

  /** The texts one paragraph contributes. */
  function PieceCandidates(paragraph: string): set<string> {
    SetPrefix(FragmentText, Accepted, Fragments(paragraph), |Fragments(paragraph)|)
  }

  /** The set `objectives` ends up holding for an objectives tab. */
  function Candidates(block: ObjectivesBlock): set<string> {
    SetPrefix(ListItemText, Accepted, block.listItems, |block.listItems|)
    + UnionPrefix(PieceCandidates, block.paragraphs, |block.paragraphs|)
  }

  /** The candidate set of a page; empty when it has no objectives tab. */
  function CandidatesOf(div: Option<ObjectivesBlock>): set<string> {
    if div.None? then {} else Candidates(div.value)
  }

  /** A paragraph contributes exactly the accepted texts of its pieces. */
  lemma PieceCandidatesSpec(paragraph: string, x: string)
    ensures x in PieceCandidates(paragraph) <==>
              Accepted(x) && exists j :: 0 <= j < |Fragments(paragraph)| && FragmentText(Fragments(paragraph)[j]) == x
  {
    SetPrefixMembers(FragmentText, Accepted, Fragments(paragraph), |Fragments(paragraph)|, x);
  }

  /** A text is a candidate exactly when some list item offers it and it is
      accepted, or some paragraph contributes it. */
  lemma CandidatesSpec(block: ObjectivesBlock, x: string)
    ensures x in Candidates(block) <==>
              || (Accepted(x) && exists i :: 0 <= i < |block.listItems| && ListItemText(block.listItems[i]) == x)
              || (exists p :: 0 <= p < |block.paragraphs| && x in PieceCandidates(block.paragraphs[p]))
  {
    SetPrefixMembers(ListItemText, Accepted, block.listItems, |block.listItems|, x);
    UnionPrefixMembers(PieceCandidates, block.paragraphs, |block.paragraphs|, x);
  }

  /** Every candidate is a non-empty text that `is_valid_objective` accepts:
      stripped, at least ten characters, and no heading. */
  lemma CandidatesAreValid(block: ObjectivesBlock, x: string)
    requires x in Candidates(block)
    ensures x != [] && IsValidObjective(x) && |Strip(x)| >= 10
  {
    CandidatesSpec(block, x);
    if !(Accepted(x) && exists i :: 0 <= i < |block.listItems| && ListItemText(block.listItems[i]) == x) {
      var p :| 0 <= p < |block.paragraphs| && x in PieceCandidates(block.paragraphs[p]);
      PieceCandidatesSpec(block.paragraphs[p], x);
    }
    ValidObjectiveSpec(x);
  }

  /** The paragraph loop's body: every piece of one paragraph, each stripped,
      its no-break spaces made plain and cleaned, and added when accepted. */
  method AddParagraph(objectives: set<string>, p: string) returns (result: set<string>)
    ensures result == objectives + PieceCandidates(p)
  {
    var fullText := Strip(p);
    var splitObjectives := Split(fullText, BrSeparator);
    result := AddImages(objectives, splitObjectives, FragmentText, Accepted);
  }

  /** The paragraph loop: the pieces of every paragraph, in order. */
  method AddParagraphs(objectives: set<string>, paragraphs: seq<string>) returns (result: set<string>)
    ensures result == objectives + UnionPrefix(PieceCandidates, paragraphs, |paragraphs|)
  {
    result := objectives;
    var j := 0;
    while j < |paragraphs|
      invariant j <= |paragraphs|
      invariant result == objectives + UnionPrefix(PieceCandidates, paragraphs, j)
    {
      result := AddParagraph(result, paragraphs[j]);
      j := j + 1;
    }
  }

  /** The two loops that fill the `objectives` set from the objectives tab:
      every list item's text, then every paragraph's pieces. */
  method CollectCandidates(block: ObjectivesBlock) returns (objectives: set<string>)
    ensures objectives == Candidates(block)
  {
    var items := AddImages({}, block.listItems, ListItemText, Accepted);
    objectives := AddParagraphs(items, block.paragraphs);
  }

  /** `list(s)`: the order of a Python set is not fixed, so any order will do. */
  method ListOf(s: set<string>) returns (xs: seq<string>)
    ensures Enumerates(xs, s)
  {
    xs := [];
    var rest := s;
    while rest != {}
      invariant rest <= s
      invariant forall x :: x in xs <==> x in s && x !in rest
      invariant |xs| + |rest| == |s|
      invariant forall i, j :: 0 <= i < j < |xs| ==> xs[i] != xs[j]
      decreases |rest|
    {
      var x :| x in rest;
      xs := xs + [x];
      rest := rest - {x};
    }
  }

  /** `cleaned` is what the objectives part of the pass assigns: the
      normalised candidates, in some order of the set. */
  ghost predicate ObjectivesOf(div: Option<ObjectivesBlock>, cleaned: seq<string>) {
    MapsInSomeOrder(NormalizeObjective, CandidatesOf(div), cleaned)
  }

  /** The objectives part of the detail pass, shared by both drivers. */
  method ExtractObjectives(div: Option<ObjectivesBlock>) returns (cleaned: seq<string>)
    ensures ObjectivesOf(div, cleaned)
  {
    var objectives: set<string> := {};
    if div.Some? {
      objectives := CollectCandidates(div.value);
    }
    var ordered := ListOf(objectives);
    cleaned := CleanAndJoinObjectives(ordered);
  }

  /** One objective per candidate: each is the normalised form of a candidate,
      every candidate's normalised form is there, and each is stripped. Two
      candidates may normalise to the same text, so the list may repeat. */
  lemma ObjectivesOfSpec(div: Option<ObjectivesBlock>, cleaned: seq<string>)
    requires ObjectivesOf(div, cleaned)
    ensures |cleaned| == |CandidatesOf(div)|
    ensures forall o :: o in cleaned <==> exists c :: c in CandidatesOf(div) && o == NormalizeObjective(c)
    ensures forall i :: 0 <= i < |cleaned| ==> IsStripped(cleaned[i])
  {
    MapsInSomeOrderSpec(NormalizeObjective, CandidatesOf(div), cleaned);
    forall i | 0 <= i < |cleaned| ensures IsStripped(cleaned[i]) {
      assert cleaned[i] in cleaned;
      var c :| c in CandidatesOf(div) && cleaned[i] == NormalizeObjective(c);
      NormalizedShape(c);
    }
  }

  /** A page without an objectives tab gives no objectives. */
  lemma NoTabNoObjectives(cleaned: seq<string>)
    requires ObjectivesOf(None, cleaned)
    ensures cleaned == []
  {
  }

  // ---------------------------------------------------------------------------
  // Learning contents, scraper.py

  /** The divs scraper.py takes contents from. */
  predicate IsContentDiv(n: Node) {
    && n.Tag? && n.name == "div"
    && "id" in n.elem.attrs
    && StartsWith(n.elem.attrs["id"], "tab_inhoud_")
    && EndsWith(n.elem.attrs["id"], "_content")
  }

  const KeptAttributes: set<string> := {"id", "class"}

  /** A content div with its print-only descendants removed and only its id
      and class attributes kept. */
  function CleanedContentDiv(n: Node): Node {
    if n.Text? then n
    else Tag(n.name, Element(map k | k in n.elem.attrs && k in KeptAttributes :: n.elem.attrs[k], n.elem.classes),
             RemovePrintOnly(n.children))
  }

  /** `s.strip()` is false. */
  predicate Blank(s: string) {
    Strip(s) == []
  }

  predicate NotBlank(s: string) {
    !Blank(s)
  }

  /** A content div, cleaned and serialised. */
  function SerializedDiv(serialize: Node -> string): Node -> string {
    (n: Node) => serialize(CleanedContentDiv(n))
  }

  /** `all_contents` after the first `n` content divs. */
  function ContentParts(divs: seq<Node>, serialize: Node -> string, n: nat): seq<string>
    requires n <= |divs|
  {
    KeepMapPrefix(SerializedDiv(serialize), NotBlank, divs, n)
  }

  /** scraper.py's learning contents of a page. */
  function NewerContents(elements: seq<Node>, serialize: Node -> string): string {
    var divs := Filter(IsContentDiv, elements);
    Join(ContentParts(divs, serialize, |divs|), "\n")
  }

  /** The body of the content-div loop: clean one div and serialise it. */
  method CleanContentDiv(div: Node, serialize: Node -> string) returns (cleanedContents: string)
    requires div.Tag?
    ensures cleanedContents == serialize(CleanedContentDiv(div))
  {
    var children := RemovePrintOnly(div.children);
    var attrs := KeepAllowedAttributes(div.elem.attrs, KeptAttributes);
    assert attrs == map k | k in div.elem.attrs && k in KeptAttributes :: div.elem.attrs[k];
    cleanedContents := serialize(Tag(div.name, Element(attrs, div.elem.classes), children));
  }

  /** The content part of scraper.py's detail pass. */
  method CollectContents(elements: seq<Node>, serialize: Node -> string) returns (learningContents: string)
    ensures learningContents == NewerContents(elements, serialize)
  {
    var contentsDivs := Filter(IsContentDiv, elements);
    learningContents := "";
    if |contentsDivs| > 0 {
      FilterMembers(IsContentDiv, elements);
      var allContents: seq<string> := [];
      var i := 0;
      while i < |contentsDivs|
        invariant i <= |contentsDivs|
        invariant allContents == ContentParts(contentsDivs, serialize, i)
      {
        assert contentsDivs[i] in contentsDivs;
        var cleanedContents := CleanContentDiv(contentsDivs[i], serialize);
        if Strip(cleanedContents) != [] {
          allContents := allContents + [cleanedContents];
        }
        i := i + 1;
      }
      learningContents := Join(allContents, "\n");
    }
  }

  /** The learning contents are empty exactly when every content div
      serialises to blank text. */
  lemma NewerContentsEmpty(elements: seq<Node>, serialize: Node -> string)
    ensures NewerContents(elements, serialize) == [] <==>
              forall d :: d in elements && IsContentDiv(d) ==> Blank(serialize(CleanedContentDiv(d)))
  {
    var divs := Filter(IsContentDiv, elements);
    var parts := ContentParts(divs, serialize, |divs|);
    KeepMapPrefixKept(SerializedDiv(serialize), NotBlank, divs, |divs|);
    KeepMapPrefixEmpty(SerializedDiv(serialize), NotBlank, divs, |divs|);
    forall i | 0 <= i < |parts| ensures parts[i] != [] {
      assert NotBlank(parts[i]);
    }
    JoinEmpty(parts, "\n");
    FilterMembers(IsContentDiv, elements);
    if forall d :: d in elements && IsContentDiv(d) ==> Blank(serialize(CleanedContentDiv(d))) {
      forall i | 0 <= i < |divs| ensures !NotBlank(SerializedDiv(serialize)(divs[i])) {
        assert divs[i] in divs;
      }
    }
  }

  // ---------------------------------------------------------------------------
  // Learning contents, main.py

  /** The element main.py takes contents from: its id starts with `tab_inhoud_idp`. */
  predicate IsIdpElement(n: Node) {
    n.Tag? && "id" in n.elem.attrs && StartsWith(n.elem.attrs["id"], "tab_inhoud_idp")
  }

  /** An element with its print-only descendants removed and every attribute cleared. */
  function ClearedElement(n: Node): Node {
    if n.Text? then n else Tag(n.name, Element(map[], None), RemovePrintOnly(n.children))
  }

  /** main.py's learning contents of a page; `None` when no element qualifies. */
  function OlderContents(elements: seq<Node>, serialize: Node -> string): Option<string> {
    match FindFirst(IsIdpElement, elements)
    case None => None
    case Some(n) => Some(serialize(ClearedElement(n)))
  }

  /** The content part of main.py's detail pass. */
  method FindContents(elements: seq<Node>, serialize: Node -> string) returns (cleanedContents: Option<string>)
    ensures cleanedContents == OlderContents(elements, serialize)
  {
    var contentsDiv := FindFirst(IsIdpElement, elements);
    cleanedContents := None;
    if contentsDiv.Some? {
      var children := RemovePrintOnly(contentsDiv.value.children);
      cleanedContents := Some(serialize(Tag(contentsDiv.value.name, Element(map[], None), children)));
    }
  }

  /** The contents come from the first qualifying element in document order,
      stripped of all attributes and of print-only descendants. */
  lemma OlderContentsSpec(elements: seq<Node>, serialize: Node -> string)
    ensures OlderContents(elements, serialize).None? <==> forall i :: 0 <= i < |elements| ==> !IsIdpElement(elements[i])
    ensures OlderContents(elements, serialize).Some? ==>
              exists i :: 0 <= i < |elements| && IsIdpElement(elements[i])
                          && OlderContents(elements, serialize).value == serialize(ClearedElement(elements[i]))
                          && (forall j :: 0 <= j < i ==> !IsIdpElement(elements[j]))
  {
    FindFirstSpec(IsIdpElement, elements);
  }
}
