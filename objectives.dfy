/**
 Objective text handling shared by both scraper drivers: the normalisation
 applied to every learning objective (`clean_and_join_objectives`), the
 list-marker cleanup applied to paragraph fragments (`clean_text`) and the
 filter that rejects headings and short fragments (`is_valid_objective`).
 Both drivers define these helpers with the same text.
 */
module Objectives {
  import opened Text
  import opened Lists

  /** Phrases removed from the start of an objective, tried in this order. */
  const StartPhrases: seq<string> := ["de student", "je", "you"]

  /** Headings that are never objectives; compared after lower-casing both sides. */
  const FilterPhrases: seq<string> := ["De student:", "In ", "General Competences", "Knowledge",
                                       "Skills", "Attitudes", "Competences", "Learning outcomes"]

  predicate IsPeriod(c: char) {
    c == '.'
  }

  /** `s` begins, case-insensitively, with `phrase` and the next character is whitespace:
      exactly when the pattern `^\bphrase\b\s+` matches. */
  predicate BeginsWithPhrase(s: string, phrase: string) {
    && |s| > |phrase|
    && (forall i :: 0 <= i < |phrase| ==> LowerChar(s[i]) == phrase[i])
    && IsSpace(s[|phrase|])
  }

  /** `re.sub(r'^\bphrase\b\s+', '', s, flags=re.IGNORECASE)` for a lower-case phrase. */
  function StripStartPhrase(s: string, phrase: string): (r: string)
    ensures |r| <= |s|
  {
    if BeginsWithPhrase(s, phrase) then LStrip(s[|phrase|..]) else s
  }

  /** The substitution changes `s` exactly when the phrase is there, and then
      removes the phrase and the whole run of whitespace after it. */
  lemma StripStartPhraseSpec(s: string, phrase: string)
    ensures StripStartPhrase(s, phrase) != s <==> BeginsWithPhrase(s, phrase)
    ensures BeginsWithPhrase(s, phrase) ==>
              exists k :: |phrase| < k <= |s| && StripStartPhrase(s, phrase) == s[k..]
                          && (forall i :: |phrase| <= i < k ==> IsSpace(s[i]))
                          && (k == |s| || !IsSpace(s[k]))
  {
    if BeginsWithPhrase(s, phrase) {
      var t := s[|phrase|..];
      var k := |phrase| + CountLeading(t, IsSpace);
      assert StripStartPhrase(s, phrase) == s[k..];
      forall i | |phrase| <= i < k ensures IsSpace(s[i]) {
        assert s[i] == t[i - |phrase|];
      }
      if k < |s| {
        assert s[k] == t[k - |phrase|];
      }
    }
  }

  /** The inner loop over `start_phrases`, applied to the phrases in order. */
  function StripStartPhrases(s: string, phrases: seq<string>): (r: string)
    ensures |r| <= |s|
  {
    if phrases == [] then s
    else StripStartPhrase(StripStartPhrases(s, phrases[..|phrases| - 1]), phrases[|phrases| - 1])
  }

  /** `s[0].upper() + s[1:]` for a non-empty `s`. */
  function CapitalizeFirst(s: string): (r: string)
    ensures |r| == |s|
  {
    if s == [] then [] else [UpperChar(s[0])] + s[1..]
  }

  /** What `clean_and_join_objectives` does to one objective: strip, drop the
      leading phrases, drop every trailing period, strip again, upper-case the
      first character. */
  function NormalizeObjective(raw: string): string {
    CapitalizeFirst(Strip(RStripWhile(StripStartPhrases(Strip(raw), StartPhrases), IsPeriod)))
  }

  /** A normalised objective carries no surrounding whitespace, does not begin
      with a lower-case letter and is no longer than the stripped input. */
  lemma NormalizedShape(raw: string)
    ensures var r := NormalizeObjective(raw);
            && IsStripped(r)
            && (r == [] || !('a' <= r[0] <= 'z'))
            && |r| <= |Strip(raw)|
  {
    var t := Strip(RStripWhile(StripStartPhrases(Strip(raw), StartPhrases), IsPeriod));
    StripSpec(RStripWhile(StripStartPhrases(Strip(raw), StartPhrases), IsPeriod));
    var r := CapitalizeFirst(t);
    if t != [] {
      assert r[0] == UpperChar(t[0]);
      assert r[|r| - 1] == if |t| == 1 then UpperChar(t[0]) else t[|t| - 1];
    }
  }

  /** `clean_and_join_objectives`: one normalised objective per input, in input
      order. */
  method CleanAndJoinObjectives(rawObjectives: seq<string>) returns (cleaned: seq<string>)
    ensures cleaned == Map(NormalizeObjective, rawObjectives)
  {
    cleaned := [];
    for n := 0 to |rawObjectives|
      invariant cleaned == MapPrefix(NormalizeObjective, rawObjectives, n)
    {
      var obj := CleanObjective(rawObjectives[n]);
      cleaned := cleaned + [obj];
    }
  }

  /** The body of the outer loop of `clean_and_join_objectives`, for one objective. */
  method CleanObjective(raw: string) returns (obj: string)
    ensures obj == NormalizeObjective(raw)
  {
    obj := Strip(raw);
    obj := RemoveStartPhrases(obj, StartPhrases);
    obj := Strip(RStripWhile(obj, IsPeriod));
    ghost var stripped := obj;
    if obj != [] {
      obj := [UpperChar(obj[0])] + obj[1..];
    }
    assert obj == CapitalizeFirst(stripped);
  }

  /** The inner `for phrase in start_phrases` loop of `clean_and_join_objectives`. */
  method RemoveStartPhrases(text: string, phrases: seq<string>) returns (obj: string)
    ensures obj == StripStartPhrases(text, phrases)
  {
    obj := text;
    for k := 0 to |phrases|
      invariant obj == StripStartPhrases(text, phrases[..k])
    {
      assert phrases[..k + 1][..k] == phrases[..k];
      obj := StripStartPhrase(obj, phrases[k]);
    }
    assert phrases[..|phrases|] == phrases;
  }

  /** The three start phrases are tried one after the other. */
  lemma PhrasesInOrder(a: string)
    ensures StripStartPhrases(a, StartPhrases)
            == StripStartPhrase(StripStartPhrase(StripStartPhrase(a, "de student"), "je"), "you")
  {
    var b := StripStartPhrase(a, "de student");
    var c := StripStartPhrase(b, "je");
    TwoPhrasesInOrder(a, b, c);
    assert StartPhrases[..2] == ["de student", "je"];
  }

  lemma TwoPhrasesInOrder(a: string, b: string, c: string)
    requires StripStartPhrase(a, "de student") == b
    requires StripStartPhrase(b, "je") == c
    ensures StripStartPhrases(a, ["de student", "je"]) == c
  {
    OnePhrase(a, b);
    assert ["de student", "je"][..1] == ["de student"];
  }

  lemma OnePhrase(a: string, b: string)
    requires StripStartPhrase(a, "de student") == b
    ensures StripStartPhrases(a, ["de student"]) == b
  {
    assert ["de student"][..0] == [];
  }

  // ---------------------------------------------------------------------------
  // Facts about NormalizeObjective

  lemma StripOfStripped(s: string)
    requires IsStripped(s)
    ensures RStrip(s) == s && LStrip(s) == s && Strip(s) == s
  {
  }

  /** Text that is already in normal form is left as it is. */
  lemma NormalFormIsFixedPoint(s: string)
    requires IsStripped(s)
    requires s == [] || (!('a' <= s[0] <= 'z') && s[|s| - 1] != '.')
    requires forall k :: 0 <= k < |StartPhrases| ==> !BeginsWithPhrase(s, StartPhrases[k])
    ensures NormalizeObjective(s) == s
  {
    StripOfStripped(s);
    assert StripStartPhrase(s, "de student") == s by {
      assert !BeginsWithPhrase(s, StartPhrases[0]);
    }
    assert StripStartPhrase(s, "je") == s by {
      assert !BeginsWithPhrase(s, StartPhrases[1]);
    }
    assert StripStartPhrase(s, "you") == s by {
      assert !BeginsWithPhrase(s, StartPhrases[2]);
    }
    assert RStripWhile(s, IsPeriod) == s;
    NormalizeVia(s, s, s, s, s, s);
    CapitalizedUnchanged(s);
  }

  lemma CapitalizedUnchanged(s: string)
    requires s == [] || !('a' <= s[0] <= 'z')
    ensures CapitalizeFirst(s) == s
  {
    if s != [] {
      assert [s[0]] + s[1..] == s;
    }
  }

  /** A blank objective becomes the empty string. */
  lemma BlankBecomesEmpty(raw: string)
    requires forall i :: 0 <= i < |raw| ==> IsSpace(raw[i])
    ensures NormalizeObjective(raw) == []
  {
    BlankStripsToEmpty(raw);
  }

  lemma {:induction false} BlankStripsToEmpty(raw: string)
    requires forall i :: 0 <= i < |raw| ==> IsSpace(raw[i])
    ensures Strip(raw) == []
  {
    if raw != [] {
      BlankStripsToEmpty(raw[..|raw| - 1]);
    }
  }

  /** The trailing-period step drops every trailing period, not only the last one. */
  lemma {:induction false} AllTrailingPeriodsDropped(s: string, dots: string)
    requires s == [] || s[|s| - 1] != '.'
    requires forall i :: 0 <= i < |dots| ==> dots[i] == '.'
    ensures RStripWhile(s + dots, IsPeriod) == s
  {
    if dots != [] {
      assert (s + dots)[..|s + dots| - 1] == s + dots[..|dots| - 1];
      AllTrailingPeriodsDropped(s, dots[..|dots| - 1]);
    } else {
      assert s + dots == s;
    }
  }

  /** NormalizeObjective taken one step at a time, for the worked examples below. */
  lemma NormalizeVia(raw: string, a: string, b: string, c: string, d: string, e: string)
    requires Strip(raw) == a
    requires StripStartPhrase(a, "de student") == b
    requires StripStartPhrase(b, "je") == c
    requires StripStartPhrase(c, "you") == d
    requires Strip(RStripWhile(d, IsPeriod)) == e
    ensures NormalizeObjective(raw) == CapitalizeFirst(e)
  {
    PhrasesInOrder(a);
  }

  /** A phrase cannot match when the first letters already differ. */
  lemma FirstLetterRulesOut(s: string, phrase: string)
    requires s != [] && phrase != [] && LowerChar(s[0]) != phrase[0]
    ensures StripStartPhrase(s, phrase) == s
  {
  }

  /** The phrase, one whitespace character and then `w`: only `w` is left. */
  lemma PhraseAndOneSpace(s: string, phrase: string, w: string)
    requires |s| == |phrase| + 1 + |w|
    requires forall i :: 0 <= i < |phrase| ==> LowerChar(s[i]) == phrase[i]
    requires IsSpace(s[|phrase|]) && s[|phrase| + 1..] == w
    requires w == [] || !IsSpace(w[0])
    ensures StripStartPhrase(s, phrase) == w
  {
    var t := s[|phrase|..];
    assert t[1..] == w;
    assert CountLeading(t, IsSpace) == 1 by {
      assert CountLeading(t[1..], IsSpace) == 0;
    }
  }

  /** Text that is stripped and does not end in a period passes the
      trailing-period step unchanged. */
  lemma CleanTail(w: string)
    requires IsStripped(w) && (w == [] || w[|w| - 1] != '.')
    ensures Strip(RStripWhile(w, IsPeriod)) == w
  {
    assert RStripWhile(w, IsPeriod) == w;
    StripOfStripped(w);
  }

  /** "Je " and then `w`: the phrase "je" goes. */
  lemma JeIsRemoved(w: string)
    requires w != [] && !IsSpace(w[0])
    ensures StripStartPhrase("Je " + w, "je") == w
  {
    var s := "Je " + w;
    assert s[3..] == w;
    PhraseAndOneSpace(s, "je", w);
  }

  /** "you " and then `t`: the phrase "you" goes. */
  lemma YouIsRemoved(t: string)
    requires t != [] && !IsSpace(t[0])
    ensures StripStartPhrase("you " + t, "you") == t
  {
    var s := "you " + t;
    assert s[4..] == t;
    PhraseAndOneSpace(s, "you", t);
  }

  /** A leading "Je " goes: `Normalize("Je " + w)` is `w` with a capital,
      for any `w` that is otherwise already clean. */
  lemma DropsLeadingJe(w: string)
    requires IsStripped(w) && w != [] && w[|w| - 1] != '.'
    requires !BeginsWithPhrase(w, "you")
    ensures NormalizeObjective("Je " + w) == CapitalizeFirst(w)
  {
    var s := "Je " + w;
    assert IsStripped(s);
    StripOfStripped(s);
    FirstLetterRulesOut(s, "de student");
    JeIsRemoved(w);
    CleanTail(w);
    NormalizeVia(s, s, s, w, w, w);
  }

  /** Normalising twice is not the same as normalising once: each phrase is
      tried once, in a fixed order, so removing "you" can uncover a leading "je". */
  lemma NormalizeIsNotIdempotent(w: string)
    requires IsStripped(w) && w != [] && w[|w| - 1] != '.'
    requires !BeginsWithPhrase(w, "you")
    ensures NormalizeObjective("you je " + w) == "Je " + w
    ensures NormalizeObjective(NormalizeObjective("you je " + w)) != NormalizeObjective("you je " + w)
  {
    YouJeBecomesJe(w);
    DropsLeadingJe(w);
  }

  lemma YouJeBecomesJe(w: string)
    requires IsStripped(w) && w != [] && w[|w| - 1] != '.'
    ensures NormalizeObjective("you je " + w) == "Je " + w
  {
    var t := "je " + w;
    var s := "you " + t;
    assert s == "you je " + w;
    YouFrontUntouched(t);
    YouIsRemoved(t);
    JeTail(w);
    NormalizeVia(s, s, s, s, t, t);
    CapitalizeJe(w);
  }

  /** Text opening with "you " is already stripped and neither "de student"
      nor "je" matches it. */
  lemma YouFrontUntouched(t: string)
    requires IsStripped(t) && t != []
    ensures var s := "you " + t;
      && Strip(s) == s
      && StripStartPhrase(s, "de student") == s
      && StripStartPhrase(s, "je") == s
  {
    var s := "you " + t;
    StrippedConcat("you ", t);
    StripOfStripped(s);
    FirstLetterRulesOut(s, "de student");
    FirstLetterRulesOut(s, "je");
  }

  /** "je " in front of clean text survives the trailing-period step. */
  lemma JeTail(w: string)
    requires IsStripped(w) && w != [] && w[|w| - 1] != '.'
    ensures var t := "je " + w; IsStripped(t) && t != [] && Strip(RStripWhile(t, IsPeriod)) == t
  {
    var t := "je " + w;
    StrippedConcat("je ", w);
    assert t[|t| - 1] == w[|w| - 1];
    CleanTail(t);
  }

  lemma CapitalizeJe(w: string)
    ensures CapitalizeFirst("je " + w) == "Je " + w
  {
    var t := "je " + w;
    assert t[1..] == "e " + w;
    assert [UpperChar(t[0])] + t[1..] == "Je " + w;
  }

  // ---------------------------------------------------------------------------
  // clean_text

  predicate IsBullet(c: char) {
    c == '\U{2022}' || c == '-' || c == '*'
  }

  /** `s` is a subsequence of `t`: `t` with some characters deleted. */
  predicate IsSubsequence(s: string, t: string)
    decreases |t|
  {
    if s == [] then true
    else if t == [] then false
    else if s[0] == t[0] then IsSubsequence(s[1..], t[1..])
    else IsSubsequence(s, t[1..])
  }

  /** The length of the match of `\.?\)?` at the start of `u`. */
  function MarkLength(u: string): (m: nat)
    ensures m <= |u|
  {
    if |u| > 0 && u[0] == '.' then (if |u| > 1 && u[1] == ')' then 2 else 1)
    else if |u| > 0 && u[0] == ')' then 1
    else 0
  }

  /** The length of the match of `\d+\.?\)?\s*` at the start of `s`. */
  function OrdinalLength(s: string): (k: nat)
    requires |s| > 0 && IsDigit(s[0])
    ensures 0 < k <= |s|
  {
    var d := CountLeading(s, IsDigit);
    var q := d + MarkLength(s[d..]);
    q + CountLeading(s[q..], IsSpace)
  }

  /** `re.sub(r'\d+\.?\)?\s*', '', s)`: every digit run is deleted together with
      an optional period, an optional closing parenthesis and the whitespace after it. */
  function DeleteOrdinals(s: string): string
    decreases |s|
  {
    if s == [] then []
    else if IsDigit(s[0]) then DeleteOrdinals(s[OrdinalLength(s)..])
    else [s[0]] + DeleteOrdinals(s[1..])
  }

  /** What the substitution promises: no digit is left, the result is the input
      with characters deleted, and text without digits is left alone. */
  lemma {:induction false} DeleteOrdinalsSpec(s: string)
    ensures NoDigits(DeleteOrdinals(s))
    ensures IsSubsequence(DeleteOrdinals(s), s)
    ensures NoDigits(s) ==> DeleteOrdinals(s) == s
    decreases |s|
  {
    if s == [] {
    } else if IsDigit(s[0]) {
      var k := OrdinalLength(s);
      DeleteOrdinalsSpec(s[k..]);
      SubsequenceOfSuffix(DeleteOrdinals(s), s, k);
    } else {
      DeleteOrdinalsSpec(s[1..]);
      var r := DeleteOrdinals(s[1..]);
      assert ([s[0]] + r)[1..] == r;
      if NoDigits(s) {
        assert NoDigits(s[1..]) by {
          forall i | 0 <= i < |s| - 1 ensures !IsDigit(s[1..][i]) {
            assert s[1..][i] == s[i + 1];
          }
        }
        assert [s[0]] + s[1..] == s;
      }
    }
  }

  /** Text without digits in front of the rest survives the substitution as
      it is: only the rest is changed. */
  lemma {:induction false} DeleteOrdinalsKeepsPrefix(p: string, s: string)
    requires NoDigits(p)
    ensures DeleteOrdinals(p + s) == p + DeleteOrdinals(s)
    decreases |p|
  {
    if p == [] {
      assert p + s == s;
    } else {
      var t := p + s;
      assert t[0] == p[0] && !IsDigit(t[0]);
      assert t[1..] == p[1..] + s;
      assert NoDigits(p[1..]) by {
        forall i | 0 <= i < |p| - 1 ensures !IsDigit(p[1..][i]) {
          assert p[1..][i] == p[i + 1];
        }
      }
      DeleteOrdinalsKeepsPrefix(p[1..], s);
      assert DeleteOrdinals(t) == [p[0]] + DeleteOrdinals(p[1..] + s);
      assert [p[0]] + p[1..] == p;
    }
  }

  /** A digit run followed by anything that does not start with a digit is
      the whole leading digit run. */
  lemma DigitRunOf(ds: string, tail: string)
    requires AllDigits(ds) && (tail == [] || !IsDigit(tail[0]))
    ensures CountLeading(ds + tail, IsDigit) == |ds|
  {
    var t := ds + tail;
    assert |ds| == |t| || t[|ds|] == tail[0];
    CountLeadingAt(t, IsDigit, |ds|);
  }

  /** The ordinal match at the start of `ds + mark + rest`: the digits, the
      period and parenthesis of `mark`, then the whitespace that starts `rest`. */
  lemma OrdinalLengthOf(ds: string, mark: string, rest: string)
    requires ds != [] && AllDigits(ds)
    requires MarkLength(mark + rest) == |mark|
    requires mark + rest == [] || !IsDigit((mark + rest)[0])
    ensures OrdinalLength(ds + (mark + rest)) == |ds| + |mark| + CountLeading(rest, IsSpace)
  {
    var tail := mark + rest;
    var t := ds + tail;
    var d := |ds|;
    DigitRunOf(ds, tail);
    assert t[d..] == tail;
    assert tail[|mark|..] == rest;
  }

  /** `\.?\)?` takes exactly `mark` when what follows is neither a period
      nor a parenthesis, unless it is whitespace. */
  lemma MarkLengthOf(mark: string, rest: string)
    requires mark == [] || mark == "." || mark == ")" || mark == ".)"
    requires rest == [] || (!IsDigit(rest[0]) && (IsSpace(rest[0]) || (rest[0] != '.' && rest[0] != ')')))
    ensures MarkLength(mark + rest) == |mark|
    ensures mark + rest == [] || !IsDigit((mark + rest)[0])
  {
    var u := mark + rest;
    if mark == [] {
      assert u == rest;
    } else if mark == "." {
      assert u[0] == '.' && (|u| == 1 || u[1] == rest[0]);
    } else if mark == ")" {
      assert u[0] == ')';
    } else {
      assert u[0] == '.' && u[1] == ')';
    }
  }

  /** Whitespace in front of text that does not start with whitespace is the
      whole leading whitespace run. */
  lemma LeadingSpaces(ws: string, s: string)
    requires forall i :: 0 <= i < |ws| ==> IsSpace(ws[i])
    requires s == [] || (!IsDigit(s[0]) && !IsSpace(s[0]) && s[0] != '.' && s[0] != ')')
    ensures var rest := ws + s;
            && CountLeading(rest, IsSpace) == |ws|
            && (rest == [] || (!IsDigit(rest[0]) && (IsSpace(rest[0]) || (rest[0] != '.' && rest[0] != ')'))))
  {
    var rest := ws + s;
    assert |ws| == |rest| || !IsSpace(rest[|ws|]) by {
      if |ws| < |rest| {
        assert rest[|ws|] == s[0];
      }
    }
    CountLeadingAt(rest, IsSpace, |ws|);
    if ws != [] {
      assert rest[0] == ws[0];
      assert !IsDigit(ws[0]);
    } else {
      assert rest == s;
    }
  }

  /** The four parts, nested to the right, and what is left after the first three. */
  lemma OrdinalParts(ds: string, mark: string, ws: string, s: string)
    requires ds != []
    ensures var t := ds + (mark + (ws + s));
            && ds + mark + ws + s == t
            && t[0] == ds[0]
            && t[|ds| + |mark| + |ws|..] == s
  {
    var t := ds + (mark + (ws + s));
    assert t[|ds|..] == mark + (ws + s);
    assert t[|ds|..][|mark|..] == ws + s;
  }

  /** The substitution skips the ordinal found at the start of `t`. */
  lemma DeleteOrdinalsSkips(t: string, k: nat)
    requires t != [] && IsDigit(t[0]) && OrdinalLength(t) == k
    ensures DeleteOrdinals(t) == DeleteOrdinals(t[k..])
  {
  }

  /** A whole ordinal goes: a digit run, then at most a period and a closing
      parenthesis, then the whitespace after them, is deleted and the text
      after it is left to the rest of the substitution. */
  lemma DeleteOrdinalsDropsOrdinal(ds: string, mark: string, ws: string, s: string)
    requires ds != [] && AllDigits(ds)
    requires mark == [] || mark == "." || mark == ")" || mark == ".)"
    requires forall i :: 0 <= i < |ws| ==> IsSpace(ws[i])
    requires s == [] || (!IsDigit(s[0]) && !IsSpace(s[0]) && s[0] != '.' && s[0] != ')')
    ensures DeleteOrdinals(ds + mark + ws + s) == DeleteOrdinals(s)
  {
    LeadingSpaces(ws, s);
    MarkLengthOf(mark, ws + s);
    OrdinalLengthOf(ds, mark, ws + s);
    OrdinalParts(ds, mark, ws, s);
    DeleteOrdinalsSkips(ds + (mark + (ws + s)), |ds| + |mark| + |ws|);
  }

  lemma {:induction false} SubsequenceOfSuffix(r: string, s: string, k: nat)
    requires k <= |s| && IsSubsequence(r, s[k..])
    ensures IsSubsequence(r, s)
    decreases k
  {
    if k > 0 {
      assert s[k..] == s[1..][k - 1..];
      SubsequenceOfSuffix(r, s[1..], k - 1);
      SubsequenceDropFront(r, s);
    }
  }

  /** A subsequence of the tail of `t` is a subsequence of `t`. */
  lemma {:induction false} SubsequenceDropFront(r: string, t: string)
    requires t != [] && IsSubsequence(r, t[1..])
    ensures IsSubsequence(r, t)
    decreases |t|, 0
  {
    if r != [] && r[0] == t[0] {
      SubsequenceOfTail(r, t[1..]);
    }
  }

  /** Dropping the first character of a subsequence keeps it a subsequence. */
  lemma {:induction false} SubsequenceOfTail(r: string, s: string)
    requires r != [] && IsSubsequence(r, s)
    ensures IsSubsequence(r[1..], s)
    decreases |s|, 1
  {
    if r[0] == s[0] {
      SubsequenceDropFront(r[1..], s);
    } else {
      SubsequenceOfTail(r, s[1..]);
      SubsequenceDropFront(r[1..], s);
    }
  }

  /** `clean_text`: at most one leading bullet goes, then every ordinal. The
      statements after its `return` never run and are not modelled. */
  function CleanText(text: string): string {
    var s := Strip(text);
    if |s| > 0 && IsBullet(s[0]) then DeleteOrdinals(s[1..]) else DeleteOrdinals(s)
  }

  /** `clean_text` leaves no digit and only deletes characters: from the
      stripped text without its bullet, if it had one. Text without digits only
      loses its bullet. */
  lemma CleanTextSpec(text: string)
    ensures NoDigits(CleanText(text))
    ensures var s := Strip(text);
            var body := if |s| > 0 && IsBullet(s[0]) then s[1..] else s;
            && IsSubsequence(CleanText(text), body)
            && (NoDigits(s) ==> CleanText(text) == body)
  {
    var s := Strip(text);
    if |s| > 0 && IsBullet(s[0]) {
      DeleteOrdinalsSpec(s[1..]);
      if NoDigits(s) {
        assert NoDigits(s[1..]) by {
          forall i | 0 <= i < |s| - 1 ensures !IsDigit(s[1..][i]) {
            assert s[1..][i] == s[i + 1];
          }
        }
      }
    } else {
      DeleteOrdinalsSpec(s);
    }
  }

  /** Only one bullet goes: a doubled bullet keeps its second half. */
  lemma CleanTextRemovesOneBullet(w: string)
    requires IsStripped(w) && w != [] && IsBullet(w[0]) && NoDigits(w)
    ensures CleanText("\U{2022}" + w) == w
  {
    var s := "\U{2022}" + w;
    assert IsStripped(s);
    StripOfStripped(s);
    assert s[1..] == w;
    assert NoDigits(s) by {
      forall i | 0 <= i < |s| ensures !IsDigit(s[i]) {
        if i > 0 {
          assert s[i] == w[i - 1];
        }
      }
    }
    CleanTextSpec(s);
  }

  // ---------------------------------------------------------------------------
  // is_valid_objective

  /** `any(normalized.startswith(phrase.lower()) for phrase in phrases)`,
      trying the phrases in list order. */
  function AnyStartsWith(normalized: string, phrases: seq<string>): bool {
    if phrases == [] then false
    else if StartsWith(normalized, Lower(phrases[0])) then true
    else AnyStartsWith(normalized, phrases[1..])
  }

  /** `any` holds exactly when some phrase of the list is a prefix. */
  lemma {:induction false} AnyStartsWithSpec(normalized: string, phrases: seq<string>)
    ensures AnyStartsWith(normalized, phrases) <==>
              exists k :: 0 <= k < |phrases| && StartsWith(normalized, Lower(phrases[k]))
  {
    if phrases != [] {
      AnyStartsWithSpec(normalized, phrases[1..]);
      if !StartsWith(normalized, Lower(phrases[0])) && exists k :: 0 <= k < |phrases| && StartsWith(normalized, Lower(phrases[k])) {
        var k :| 0 <= k < |phrases| && StartsWith(normalized, Lower(phrases[k]));
        assert phrases[1..][k - 1] == phrases[k];
      }
    }
  }

  /** `is_valid_objective`: long enough once stripped and not one of the headings. */
  function IsValidObjective(text: string): bool {
    var s := Strip(text);
    if s == [] || |s| < 10 then false
    else if AnyStartsWith(Lower(s), FilterPhrases) then false
    else true
  }

  /** The lower-cased first letters of the filter phrases, in order. */
  const FilterInitials: string := "digksacl"

  lemma FilterPhraseInitials(k: nat)
    requires k < |FilterPhrases|
    ensures FilterPhrases[k] != [] && LowerChar(FilterPhrases[k][0]) == FilterInitials[k]
  {
  }

  /** `s` does not start with the lower-cased filter phrase `p` because they
      differ at position `j`. */
  lemma DiffersAt(s: string, p: string, j: nat)
    requires j < |p| && j < |s| && LowerChar(s[j]) != LowerChar(p[j])
    ensures !StartsWith(Lower(s), Lower(p))
  {
    assert Lower(s)[j] != Lower(p)[j];
  }

  /** A text is rejected when, stripped, it is shorter than ten characters or
      starts with a filter phrase, ignoring case; otherwise it is kept. */
  lemma ValidObjectiveSpec(text: string)
    ensures IsValidObjective(text) <==>
              && |Strip(text)| >= 10
              && forall k :: 0 <= k < |FilterPhrases| ==> !StartsWith(Lower(Strip(text)), Lower(FilterPhrases[k]))
  {
    AnyStartsWithSpec(Lower(Strip(text)), FilterPhrases);
  }

  /** A stripped text of at least ten characters is kept when no filter phrase
      shares its first letter, except perhaps phrase `skip`, from which it
      differs at position `j`. */
  lemma PassesFilter(s: string, initial: char, skip: nat, j: nat)
    requires IsStripped(s) && |s| >= 10 && skip < |FilterPhrases|
    requires LowerChar(s[0]) == initial
    requires forall k :: 0 <= k < |FilterInitials| && k != skip ==> initial != FilterInitials[k]
    requires j < |FilterPhrases[skip]| && j < |s| && LowerChar(s[j]) != LowerChar(FilterPhrases[skip][j])
    ensures IsValidObjective(s)
  {
    forall k | 0 <= k < |FilterPhrases|
      ensures !StartsWith(Lower(s), Lower(FilterPhrases[k]))
    {
      if k == skip {
        DiffersAt(s, FilterPhrases[k], j);
      } else {
        FilterPhraseInitials(k);
        DiffersAt(s, FilterPhrases[k], 0);
      }
    }
    StripOfStripped(s);
    ValidObjectiveSpec(s);
  }

  /** `s` starts with filter phrase `k`, compared without case. */
  lemma StartsWithFilterPhrase(s: string, k: nat)
    requires k < |FilterPhrases| && |FilterPhrases[k]| <= |s|
    requires forall j :: 0 <= j < |FilterPhrases[k]| ==> s[j] == FilterPhrases[k][j]
    ensures StartsWith(Lower(s), Lower(FilterPhrases[k]))
  {
    var p := FilterPhrases[k];
    forall j | 0 <= j < |p| ensures Lower(s)[j] == Lower(p)[j] {
      assert s[j] == p[j];
    }
    assert Lower(s)[..|p|] == Lower(p);
  }

  /** A text that begins with "In " is filtered out. */
  lemma InHeadingIsFiltered(w: string)
    requires IsStripped(w) && w != []
    ensures !IsValidObjective("In " + w)
  {
    var s := "In " + w;
    assert IsStripped(s);
    StripOfStripped(s);
    StartsWithFilterPhrase(s, 1);
    ValidObjectiveSpec(s);
  }

  /** "In " needs its space: a word that merely begins with "In" passes. */
  lemma InWordPasses(w: string)
    requires IsStripped(w) && |w| >= 8 && !IsSpace(w[0])
    ensures IsValidObjective("In" + w)
  {
    var s := "In" + w;
    assert IsStripped(s);
    assert s[2] == w[0];
    assert LowerChar(s[0]) == 'i';
    PassesFilter(s, 'i', 1, 2);
  }

  /** A text that begins with "De student:" is filtered out. */
  lemma StudentHeadingIsFiltered(w: string)
    requires IsStripped(w) && w != []
    ensures !IsValidObjective("De student:" + w)
  {
    var s := "De student:" + w;
    assert IsStripped(s);
    StripOfStripped(s);
    StartsWithFilterPhrase(s, 0);
    ValidObjectiveSpec(s);
  }

  /** The "De student:" heading is filtered only with its colon. */
  lemma StudentWithoutColonPasses(w: string)
    requires IsStripped(w) && w != []
    ensures IsValidObjective("De student " + w)
  {
    var s := "De student " + w;
    StrippedConcat("De student ", w);
    assert s[0] == 'D' && s[10] == ' ';
    assert LowerChar(s[0]) == 'd';
    PassesFilter(s, 'd', 0, 10);
  }

  /** A non-blank word in front of stripped text keeps it stripped. */
  lemma StrippedConcat(p: string, w: string)
    requires p != [] && !IsSpace(p[0]) && IsStripped(w) && w != []
    ensures IsStripped(p + w)
  {
    assert (p + w)[|p + w| - 1] == w[|w| - 1];
  }

  /** A text can pass the filter and still normalise to the empty string. */
  lemma ValidObjectiveCanNormaliseToEmpty(dots: string)
    requires |dots| >= 7 && forall i :: 0 <= i < |dots| ==> dots[i] == '.'
    ensures IsValidObjective("je " + dots)
    ensures NormalizeObjective("je " + dots) == []
  {
    PeriodsPassFilter(dots);
    PeriodsNormaliseToEmpty(dots);
  }

  lemma PeriodsPassFilter(dots: string)
    requires |dots| >= 7 && forall i :: 0 <= i < |dots| ==> dots[i] == '.'
    ensures IsValidObjective("je " + dots)
  {
    var s := "je " + dots;
    assert IsStripped(s);
    assert LowerChar(s[0]) == 'j';
    PassesFilter(s, 'j', 0, 0);
  }

  lemma PeriodsNormaliseToEmpty(dots: string)
    requires dots != [] && forall i :: 0 <= i < |dots| ==> dots[i] == '.'
    ensures NormalizeObjective("je " + dots) == []
  {
    var s := "je " + dots;
    assert IsStripped(s);
    StripOfStripped(s);
    assert StripStartPhrase(s, "de student") == s by {
      assert LowerChar(s[0]) != "de student"[0];
    }
    assert s[3..] == dots;
    PhraseAndOneSpace(s, "je", dots);
    assert StripStartPhrase(dots, "you") == dots by {
      assert LowerChar(dots[0]) != "you"[0];
    }
    AllTrailingPeriodsDropped([], dots);
    assert [] + dots == dots;
    NormalizeVia(s, s, s, dots, dots, []);
  }
}
