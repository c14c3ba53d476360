/**
 The three icon-file-name patterns the overview scrapers search for with
 `re.search`: `icon-fase(\d+)-([mo])\.png`, `icon-fase(\d+)\.png` and
 `icon-semester-(\d+)\.png`. Each is matched by hand: a fixed word, a run of
 digits, a fixed ending. `\d+` is greedy and the character after it is never
 a digit, so a match at a given position uses the whole digit run there;
 `re.search` returns the leftmost match.
 */
module Icons {
  import opened Text
  import opened Wrappers

  datatype Pattern = FaseMarked | FasePlain | SemesterPattern

  /** What a match captures: the digits, and for `FaseMarked` the `m`/`o` letter. */
  datatype Match = Match(digits: string, mark: Option<char>)

  function Lead(p: Pattern): string {
    if p == SemesterPattern then "icon-semester-" else "icon-fase"
  }

  /** At position `i`: the word `pre` followed by a non-empty run of digits.
      Gives the digits and the position just after them. */
  function DigitsAfter(s: string, i: nat, pre: string): (r: Option<(string, nat)>)
    requires i <= |s|
    ensures r.Some? ==> r.value.0 != [] && AllDigits(r.value.0) && r.value.1 == i + |pre| + |r.value.0| <= |s|
  {
    if StartsWith(s[i..], pre) then
      var ds := LeadingDigits(s[i + |pre|..]);
      if ds == [] then None else Some((ds, i + |pre| + |ds|))
    else None
  }

  /** The pattern matches at position `i` (Python's `re.match` at `i`). */
  function MatchAt(p: Pattern, s: string, i: nat): (r: Option<Match>)
    requires i <= |s|
    ensures r.Some? ==> r.value.digits != [] && AllDigits(r.value.digits)
    ensures r.Some? ==> (r.value.mark.Some? <==> p == FaseMarked)
  {
    match DigitsAfter(s, i, Lead(p))
    case None => None
    case Some((ds, j)) => MatchEnd(p, s, j, ds)
  }

  /** The rest of the pattern after the digits `ds`, from position `j` on:
      `-m.png` or `-o.png` for `FaseMarked`, `.png` for the others. */
  function MatchEnd(p: Pattern, s: string, j: nat, ds: string): (r: Option<Match>)
    requires j <= |s|
    ensures r.Some? ==> r.value.digits == ds && (r.value.mark.Some? <==> p == FaseMarked)
  {
    if p == FaseMarked then
      if j + 2 <= |s| && s[j] == '-' && (s[j + 1] == 'm' || s[j + 1] == 'o') && StartsWith(s[j + 2..], ".png")
      then Some(Match(ds, Some(s[j + 1])))
      else None
    else if StartsWith(s[j..], ".png") then Some(Match(ds, None))
    else None
  }

  /** `re.search` from position `i` on. */
  function SearchFrom(p: Pattern, s: string, i: nat): (r: Option<Match>)
    requires i <= |s|
    ensures r.Some? ==> r.value.digits != [] && AllDigits(r.value.digits)
    ensures r.Some? ==> (r.value.mark.Some? <==> p == FaseMarked)
    decreases |s| - i
  {
    if i == |s| then None
    else match MatchAt(p, s, i)
      case Some(m) => Some(m)
      case None => SearchFrom(p, s, i + 1)
  }

  function Search(p: Pattern, s: string): (r: Option<Match>)
    ensures r.Some? ==> r.value.digits != [] && AllDigits(r.value.digits)
    ensures r.Some? ==> (r.value.mark.Some? <==> p == FaseMarked)
  {
    SearchFrom(p, s, 0)
  }

  /** The search finds nothing exactly when no position from `i` on matches. */
  lemma {:induction false} SearchFromNone(p: Pattern, s: string, i: nat)
    requires i <= |s|
    ensures SearchFrom(p, s, i).None? <==> forall j :: i <= j < |s| ==> MatchAt(p, s, j).None?
    decreases |s| - i
  {
    if i < |s| {
      var here := MatchAt(p, s, i);
      if here.None? {
        assert SearchFrom(p, s, i) == SearchFrom(p, s, i + 1);
        SearchFromNone(p, s, i + 1);
        if forall j :: i + 1 <= j < |s| ==> MatchAt(p, s, j).None? {
          forall j | i <= j < |s|
            ensures MatchAt(p, s, j).None?
          {
            if j == i {
              assert MatchAt(p, s, j) == here;
            }
          }
        }
      } else {
        assert SearchFrom(p, s, i) == here;
      }
    }
  }

  /** A match the search finds is the match at some position `j`, and no
      position before `j` matches: the leftmost one. */
  lemma {:induction false} SearchFromLeftmost(p: Pattern, s: string, i: nat) returns (j: nat)
    requires i <= |s| && SearchFrom(p, s, i).Some?
    ensures i <= j < |s| && MatchAt(p, s, j) == SearchFrom(p, s, i)
    ensures forall k :: i <= k < j ==> MatchAt(p, s, k).None?
    decreases |s| - i
  {
    var here := MatchAt(p, s, i);
    if here.Some? {
      j := i;
      assert SearchFrom(p, s, i) == here;
    } else {
      assert SearchFrom(p, s, i) == SearchFrom(p, s, i + 1);
      j := SearchFromLeftmost(p, s, i + 1);
      forall k | i <= k < j
        ensures MatchAt(p, s, k).None?
      {
        if k == i {
          assert MatchAt(p, s, k) == here;
        }
      }
    }
  }

  /** `re.search` semantics: nothing when no position matches, otherwise the
      match at the leftmost matching position. */
  lemma SearchSpec(p: Pattern, s: string)
    ensures Search(p, s).None? <==> forall j :: 0 <= j < |s| ==> MatchAt(p, s, j).None?
    ensures Search(p, s).Some? ==>
              exists j :: 0 <= j < |s| && MatchAt(p, s, j) == Search(p, s)
                          && forall k :: 0 <= k < j ==> MatchAt(p, s, k).None?
  {
    SearchFromNone(p, s, 0);
    if Search(p, s).Some? {
      var j := SearchFromLeftmost(p, s, 0);
    }
  }

  /** The phase icon decoding of the overview rows: the marked pattern first,
      giving the phase number and whether the letter is `m`; failing that the
      plain pattern, giving the phase number and `False`; otherwise nothing. */
  function FaseIcon(src: string): Option<(nat, bool)> {
    match Search(FaseMarked, src)
    case Some(m) => Some((DigitsValue(m.digits), m.mark == Some('m')))
    case None =>
      match Search(FasePlain, src)
      case Some(m) => Some((DigitsValue(m.digits), false))
      case None => None
  }

  /** The semester icon: the digits captured by `icon-semester-(\d+)\.png`. */
  function SemesterIcon(src: string): Option<string> {
    match Search(SemesterPattern, src)
    case Some(m) => Some(m.digits)
    case None => None
  }

  /** The icon name the site uses for a phase: `icon-fase<N>-m.png` or `icon-fase<N>-o.png`. */
  function MarkedName(n: nat, mandatory: bool): string {
    "icon-fase" + Decimal(n) + (if mandatory then "-m" else "-o") + ".png"
  }

  /** `digits` followed by `t` starts with exactly those digits when `t`
      does not start with a digit. */
  lemma LeadingDigitsOf(ds: string, t: string)
    requires AllDigits(ds) && (t == [] || !IsDigit(t[0]))
    ensures LeadingDigits(ds + t) == ds
  {
    var s := ds + t;
    var k := CountLeading(s, IsDigit);
    assert forall i :: 0 <= i < |ds| ==> IsDigit(s[i]);
    assert |ds| == |s| || !IsDigit(s[|ds|]);
    assert s[..k] == ds;
  }

  /** The word, the digits, then anything not starting with a digit: the
      digits are captured and the match goes on right after them. */
  lemma DigitsAfterWord(pre: string, ds: string, t: string)
    requires ds != [] && AllDigits(ds) && (t == [] || !IsDigit(t[0]))
    ensures var j: nat := |pre| + |ds|; DigitsAfter(pre + ds + t, 0, pre) == Some((ds, j))
  {
    var s := pre + ds + t;
    assert s[0..] == s;
    assert s[..|pre|] == pre;
    assert s[|pre|..] == ds + t;
    LeadingDigitsOf(ds, t);
  }

  /** The marked pattern matches at the start of `icon-fase<digits>-<letter>.png`. */
  lemma MarkedMatchAtStart(ds: string, letter: char, rest: string)
    requires ds != [] && AllDigits(ds) && (letter == 'm' || letter == 'o')
    ensures MatchAt(FaseMarked, "icon-fase" + ds + ([ '-', letter] + ".png" + rest), 0) == Some(Match(ds, Some(letter)))
  {
    var tail := [ '-', letter] + ".png" + rest;
    var s := "icon-fase" + ds + tail;
    DigitsAfterWord("icon-fase", ds, tail);
    var j := 9 + |ds|;
    assert s[j..] == tail;
    assert s[j + 2..] == ".png" + rest;
  }

  /** The word and digits found at `i` are those found at the start of the
      text from `i` on, with positions shifted by `i`. */
  lemma DigitsAfterSuffix(s: string, i: nat, pre: string)
    requires i <= |s|
    ensures var r := DigitsAfter(s, i, pre);
            r.None? ==> DigitsAfter(s[i..], 0, pre).None?
    ensures var r := DigitsAfter(s, i, pre);
            r.Some? ==> DigitsAfter(s[i..], 0, pre) == Some((r.value.0, r.value.1 - i))
  {
    var u := s[i..];
    assert u[0..] == u;
    if StartsWith(u, pre) {
      assert u[|pre|..] == s[i + |pre|..];
    }
  }

  /** Whether the pattern matches at position `i` depends only on the text
      from `i` on. */
  lemma MatchAtSuffix(p: Pattern, s: string, i: nat)
    requires i <= |s|
    ensures MatchAt(p, s, i) == MatchAt(p, s[i..], 0)
  {
    var u := s[i..];
    DigitsAfterSuffix(s, i, Lead(p));
    match DigitsAfter(s, i, Lead(p))
    case None =>
    case Some((ds, j)) =>
      MatchEndSuffix(p, s, i, j, ds);
  }

  /** The rest of the pattern, too, only looks at the text from `i` on. */
  lemma MatchEndSuffix(p: Pattern, s: string, i: nat, j: nat, ds: string)
    requires i <= j <= |s|
    ensures MatchEnd(p, s, j, ds) == MatchEnd(p, s[i..], j - i, ds)
  {
    var u := s[i..];
    var k := j - i;
    assert u[k..] == s[j..];
    if p == FaseMarked && j + 2 <= |s| {
      assert u[k] == s[j] && u[k + 1] == s[j + 1];
      assert u[k + 2..] == s[j + 2..];
    }
  }

  /** When the pattern matches at `j` and nowhere before, `re.search` returns
      the match at `j`. */
  lemma SearchFindsFirst(p: Pattern, s: string, j: nat)
    requires j < |s| && MatchAt(p, s, j).Some?
    requires forall k :: 0 <= k < j ==> MatchAt(p, s, k).None?
    ensures Search(p, s) == MatchAt(p, s, j)
  {
    SearchSpec(p, s);
    var j' :| 0 <= j' < |s| && MatchAt(p, s, j') == Search(p, s)
              && forall k :: 0 <= k < j' ==> MatchAt(p, s, k).None?;
    assert j' == j;
  }

  /** A marked phase icon decodes to its phase and letter wherever it stands
      in the source, for instance after a path, provided nothing before it
      already matches. */
  lemma MarkedRoundTrip(path: string, n: nat, mandatory: bool, rest: string)
    requires forall k :: 0 <= k < |path| ==> MatchAt(FaseMarked, path + MarkedName(n, mandatory) + rest, k).None?
    ensures FaseIcon(path + MarkedName(n, mandatory) + rest) == Some((n, mandatory))
  {
    var ds := Decimal(n);
    var letter := if mandatory then 'm' else 'o';
    var name := MarkedName(n, mandatory) + rest;
    var s := path + MarkedName(n, mandatory) + rest;
    assert s == path + name;
    assert name == "icon-fase" + ds + ([ '-', letter] + ".png" + rest);
    MarkedMatchAtStart(ds, letter, rest);
    assert s[|path|..] == name;
    MatchAtSuffix(FaseMarked, s, |path|);
    SearchFindsFirst(FaseMarked, s, |path|);
    DecimalRoundTrip(n);
  }

  /** The name of a phase icon without a letter, `icon-fase<N>.png`. */
  function PlainName(n: nat): string {
    "icon-fase" + Decimal(n) + ".png"
  }

  /** Every pattern begins with the letter `i`, so none matches where another letter stands. */
  lemma NoMatchWithoutI(p: Pattern, s: string, i: nat)
    requires i < |s| && s[i] != 'i'
    ensures MatchAt(p, s, i).None?
  {
    assert s[i..][0] == s[i];
  }

  /** A letterless phase icon decodes to its phase, not mandatory: the marked
      pattern finds nothing in it, so the plain pattern is used. */
  lemma PlainRoundTrip(n: nat)
    ensures FaseIcon(PlainName(n)) == Some((n, false))
  {
    var ds := Decimal(n);
    var s := PlainName(n);
    assert s == "icon-fase" + ds + ".png";
    DigitsAfterWord("icon-fase", ds, ".png");
    var j := 9 + |ds|;
    assert s[j..] == ".png";
    assert MatchAt(FaseMarked, s, 0).None?;
    forall i | 1 <= i < |s| ensures MatchAt(FaseMarked, s, i).None? {
      assert s[i] != 'i' by {
        if i < 9 {
          assert s[i] == "icon-fase"[i];
        } else if i < j {
          assert s[i] == ds[i - 9];
        } else {
          assert s[i] == ".png"[i - j];
        }
      }
      NoMatchWithoutI(FaseMarked, s, i);
    }
    SearchFromNone(FaseMarked, s, 0);
    assert MatchAt(FasePlain, s, 0) == Some(Match(ds, None));
    DecimalRoundTrip(n);
  }

  /** The name of a semester icon, `icon-semester-<N>.png`. */
  function SemesterName(n: nat): string {
    "icon-semester-" + Decimal(n) + ".png"
  }

  /** A semester icon gives back the digits of its number wherever it stands
      in the source, provided nothing before it already matches. */
  lemma SemesterRoundTrip(path: string, n: nat, rest: string)
    requires forall k :: 0 <= k < |path| ==> MatchAt(SemesterPattern, path + SemesterName(n) + rest, k).None?
    ensures SemesterIcon(path + SemesterName(n) + rest) == Some(Decimal(n))
    ensures DigitsValue(SemesterIcon(path + SemesterName(n) + rest).value) == n
  {
    var ds := Decimal(n);
    var name := SemesterName(n) + rest;
    var s := path + SemesterName(n) + rest;
    assert s == path + name;
    assert name == "icon-semester-" + ds + (".png" + rest);
    DigitsAfterWord("icon-semester-", ds, ".png" + rest);
    assert name[14 + |ds|..] == ".png" + rest;
    assert MatchAt(SemesterPattern, name, 0) == Some(Match(ds, None));
    assert s[|path|..] == name;
    MatchAtSuffix(SemesterPattern, s, |path|);
    SearchFindsFirst(SemesterPattern, s, |path|);
    DecimalRoundTrip(n);
  }
}
