/**
 The few pieces of Python's string library the scraper relies on, written out
 over `seq<char>`: whitespace and digit classes, ASCII case mapping,
 `strip`/`lstrip`/`rstrip`, `startswith`, `in` on strings and `int()` of a
 run of decimal digits.
 */
module Text {

  /** The characters Python's `str.isspace()` accepts; the regex class `\s`
      matches the same set. */
  predicate IsSpace(c: char) {
    || ('\t' <= c <= '\r')
    || ('\U{1c}' <= c <= ' ')
    || c == '\U{85}' || c == '\U{a0}' || c == '\U{1680}'
    || ('\U{2000}' <= c <= '\U{200a}')
    || c == '\U{2028}' || c == '\U{2029}' || c == '\U{202f}' || c == '\U{205f}'
    || c == '\U{3000}'
  }

  predicate IsDigit(c: char) {
    '0' <= c <= '9'
  }

  predicate AllDigits(s: string) {
    forall i :: 0 <= i < |s| ==> IsDigit(s[i])
  }

  predicate NoDigits(s: string) {
    forall i :: 0 <= i < |s| ==> !IsDigit(s[i])
  }

  function LowerChar(c: char): (r: char)
    ensures 'A' <= c <= 'Z' ==> 'a' <= r <= 'z' && r as int == c as int + 32
    ensures !('A' <= c <= 'Z') ==> r == c
  {
    if 'A' <= c <= 'Z' then (c as int + 32) as char else c
  }

  function UpperChar(c: char): (r: char)
    ensures 'a' <= c <= 'z' ==> 'A' <= r <= 'Z' && r as int == c as int - 32
    ensures !('a' <= c <= 'z') ==> r == c
  {
    if 'a' <= c <= 'z' then (c as int - 32) as char else c
  }

  /** `s.lower()`, restricted to ASCII letters. */
  function Lower(s: string): (r: string)
    ensures |r| == |s|
    ensures forall i :: 0 <= i < |s| ==> r[i] == LowerChar(s[i])
  {
    if s == [] then [] else [LowerChar(s[0])] + Lower(s[1..])
  }

  /** The length of the longest prefix of `s` whose characters satisfy `keep`. */
  function CountLeading(s: string, keep: char -> bool): (k: nat)
    ensures k <= |s|
    ensures forall i :: 0 <= i < k ==> keep(s[i])
    ensures k == |s| || !keep(s[k])
  {
    if |s| > 0 && keep(s[0]) then 1 + CountLeading(s[1..], keep) else 0
  }

  /** The leading run ends at the first character `keep` rejects. */
  lemma {:induction false} CountLeadingAt(s: string, keep: char -> bool, k: nat)
    requires k <= |s| && (forall i :: 0 <= i < k ==> keep(s[i])) && (k == |s| || !keep(s[k]))
    ensures CountLeading(s, keep) == k
  {
    if k > 0 {
      CountLeadingAt(s[1..], keep, k - 1);
    }
  }

  /** The length of the longest suffix of `s` whose characters satisfy `keep`. */
  function CountTrailing(s: string, keep: char -> bool): (k: nat)
    ensures k <= |s|
    ensures forall i :: |s| - k <= i < |s| ==> keep(s[i])
    ensures k == |s| || !keep(s[|s| - k - 1])
  {
    if |s| > 0 && keep(s[|s| - 1]) then 1 + CountTrailing(s[..|s| - 1], keep) else 0
  }

  /** `s.lstrip()`: drops the longest leading run of whitespace. */
  function LStrip(s: string): string {
    var k := CountLeading(s, IsSpace);
    if k == 0 then s else s[k..]
  }

  /** `s.rstrip(chars)` for a predicate `drop` describing `chars`. */
  function RStripWhile(s: string, drop: char -> bool): string {
    var k := CountTrailing(s, drop);
    if k == 0 then s else s[..|s| - k]
  }

  /** `s.rstrip()`. */
  function RStrip(s: string): string {
    RStripWhile(s, IsSpace)
  }

  /** `s.strip()`. */
  function Strip(s: string): string {
    LStrip(RStrip(s))
  }

  /** What `strip` promises: no whitespace at either end, and only whitespace removed. */
  lemma StripSpec(s: string)
    ensures IsStripped(Strip(s))
    ensures |Strip(s)| <= |s|
    ensures exists a, b :: 0 <= a <= b <= |s| && Strip(s) == s[a..b]
                           && (forall i :: 0 <= i < a ==> IsSpace(s[i]))
                           && (forall i :: b <= i < |s| ==> IsSpace(s[i]))
  {
    var b := |s| - CountTrailing(s, IsSpace);
    var a := CountLeading(s[..b], IsSpace);
    assert Strip(s) == s[a..b];
    forall i | 0 <= i < a ensures IsSpace(s[i]) {
      assert s[i] == s[..b][i];
    }
  }

  predicate IsStripped(s: string) {
    s == [] || (!IsSpace(s[0]) && !IsSpace(s[|s| - 1]))
  }

  /** `s.startswith(p)`. */
  predicate StartsWith(s: string, p: string) {
    |p| <= |s| && s[..|p|] == p
  }

  /** `s.endswith(p)`. */
  predicate EndsWith(s: string, p: string) {
    |p| <= |s| && s[|s| - |p|..] == p
  }

  /** `sub in s`: some suffix of `s` starts with `sub`. */
  predicate Contains(s: string, sub: string)
    decreases |s|
  {
    StartsWith(s, sub) || (|s| > 0 && Contains(s[1..], sub))
  }

  /** The first index at which `sep` occurs in `s`; `|s|` when it does not occur. */
  function Find(s: string, sep: string): (k: nat)
    requires |sep| > 0
    ensures k <= |s|
    ensures k < |s| ==> k + |sep| <= |s| && s[k..k + |sep|] == sep
    decreases |s|
  {
    if |s| == 0 || StartsWith(s, sep) then 0 else 1 + Find(s[1..], sep)
  }

  /** `s.split(sep)`: the pieces between the occurrences of `sep`, found left to right. */
  function Split(s: string, sep: string): (parts: seq<string>)
    requires |sep| > 0
    ensures |parts| > 0
    decreases |s|
  {
    var k := Find(s, sep);
    if k == |s| then [s] else [s[..k]] + Split(s[k + |sep|..], sep)
  }

  /** `sep.join(parts)`. */
  function Join(parts: seq<string>, sep: string): string {
    if |parts| == 0 then ""
    else if |parts| == 1 then parts[0]
    else parts[0] + sep + Join(parts[1..], sep)
  }

  /** Joining the pieces of a split with the separator gives back the string. */
  lemma {:induction false} JoinSplit(s: string, sep: string)
    requires |sep| > 0
    ensures Join(Split(s, sep), sep) == s
    decreases |s|
  {
    var k := Find(s, sep);
    if k < |s| {
      var rest := s[k + |sep|..];
      JoinSplit(rest, sep);
      var parts := Split(s, sep);
      assert parts == [s[..k]] + Split(rest, sep);
      assert parts[1..] == Split(rest, sep);
      assert Join(parts, sep) == s[..k] + sep + rest;
      assert s == s[..k] + s[k..k + |sep|] + rest;
    }
  }

  /** Joining non-empty pieces gives the empty string only when there are none. */
  lemma {:induction false} JoinEmpty(parts: seq<string>, sep: string)
    requires forall i :: 0 <= i < |parts| ==> parts[i] != []
    ensures Join(parts, sep) == [] <==> parts == []
  {
    if |parts| > 1 {
      assert |Join(parts, sep)| >= |parts[0]| > 0;
    }
  }

  /** `s.replace(a, b)` for single characters. */
  function ReplaceChar(s: string, a: char, b: char): (r: string)
    ensures |r| == |s|
    ensures forall i :: 0 <= i < |s| ==> r[i] == if s[i] == a then b else s[i]
  {
    if s == [] then [] else [if s[0] == a then b else s[0]] + ReplaceChar(s[1..], a, b)
  }

  /** The longest prefix of `s` made of digits. */
  function LeadingDigits(s: string): (r: string)
    ensures AllDigits(r)
  {
    s[..CountLeading(s, IsDigit)]
  }

  function DigitValue(c: char): (d: nat)
    requires IsDigit(c)
    ensures d < 10
  {
    c as int - '0' as int
  }

  function DigitChar(d: nat): (c: char)
    requires d < 10
    ensures IsDigit(c) && DigitValue(c) == d
  {
    ('0' as int + d) as char
  }

  /** `int(ds)` for a non-empty run of decimal digits. */
  function DigitsValue(ds: string): nat
    requires AllDigits(ds)
  {
    if ds == [] then 0 else DigitsValue(ds[..|ds| - 1]) * 10 + DigitValue(ds[|ds| - 1])
  }

  /** `str(n)` for a natural number. */
  function Decimal(n: nat): (ds: string)
    ensures |ds| > 0 && AllDigits(ds)
  {
    if n < 10 then [DigitChar(n)] else Decimal(n / 10) + [DigitChar(n % 10)]
  }

  /** `int(str(n)) == n`. */
  lemma {:induction false} DecimalRoundTrip(n: nat)
    ensures DigitsValue(Decimal(n)) == n
  {
    var ds := Decimal(n);
    if n < 10 {
      assert ds[..|ds| - 1] == [];
    } else {
      assert ds[..|ds| - 1] == Decimal(n / 10);
      DecimalRoundTrip(n / 10);
    }
  }
}
