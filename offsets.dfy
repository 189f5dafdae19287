/** The CSS custom-property offsets of dist/main.js: the regular expressions
    `/--ss-scroll-offset-x:\s*(\d+(?:\.\d+)?(?:rem|px))/` (and `-y`) run with
    `exec` over an element's inline style, `Number()` on the digits they
    capture, and `ConvertToPx`. */
module Offsets {
  import opened Wrappers

  const OffsetXProperty: string := "--ss-scroll-offset-x:"
  const OffsetYProperty: string := "--ss-scroll-offset-y:"

  /** `\d` */
  predicate IsDigit(c: char) {
    '0' <= c <= '9'
  }

  /** `\s`: JavaScript's white-space and line-terminator characters. */
  predicate IsSpace(c: char) {
    c == ' ' || c == '\t' || c == '\n' || c == '\r' || c == '\U{B}' || c == '\U{C}' ||
    c == '\U{A0}' || c == '\U{1680}' || ('\U{2000}' <= c <= '\U{200A}') ||
    c == '\U{2028}' || c == '\U{2029}' || c == '\U{202F}' || c == '\U{205F}' ||
    c == '\U{3000}' || c == '\U{FEFF}'
  }

  /** `w` occurs in `s` at position `i`. */
  predicate HasAt(s: string, i: nat, w: string) {
    i + |w| <= |s| && s[i..i + |w|] == w
  }

  /** Greedy `\s*` from position `i`: the end of the run of spaces. */
  function SkipSpace(s: string, i: nat): (j: nat)
    requires i <= |s|
    ensures i <= j <= |s|
    ensures forall k :: i <= k < j ==> IsSpace(s[k])
    ensures j == |s| || !IsSpace(s[j])
    decreases |s| - i
  {
    if i < |s| && IsSpace(s[i]) then SkipSpace(s, i + 1) else i
  }

  /** Greedy `\d*` from position `i`: the end of the run of digits. */
  function SkipDigits(s: string, i: nat): (j: nat)
    requires i <= |s|
    ensures i <= j <= |s|
    ensures forall k :: i <= k < j ==> IsDigit(s[k])
    ensures j == |s| || !IsDigit(s[j])
    decreases |s| - i
  {
    if i < |s| && IsDigit(s[i]) then SkipDigits(s, i + 1) else i
  }

  /** A maximal run is determined by where it ends. */
  lemma SkipSpaceAt(s: string, i: nat, j: nat)
    requires i <= j <= |s|
    requires forall k :: i <= k < j ==> IsSpace(s[k])
    requires j == |s| || !IsSpace(s[j])
    ensures SkipSpace(s, i) == j
  {
  }

  lemma SkipDigitsAt(s: string, i: nat, j: nat)
    requires i <= j <= |s|
    requires forall k :: i <= k < j ==> IsDigit(s[k])
    requires j == |s| || !IsDigit(s[j])
    ensures SkipDigits(s, i) == j
  {
  }

  /** `\d+(?:\.\d+)?` matches exactly `s[a..b]`: a run of digits, then
      optionally a point and a second run, ending at `b`. */
  predicate DecimalBetween(s: string, a: nat, b: nat)
    requires a <= b <= |s|
  {
    var d := SkipDigits(s, a);
    a < d && (d == b || (d < b && s[d] == '.' && d + 1 < b && SkipDigits(s, d + 1) == b))
  }

  /** `\d+(?:\.\d+)?(?:rem|px)` matches exactly `s[cs..ce]`: what the
      regular expression's group 1 captures. */
  predicate CaptureBetween(s: string, cs: nat, ce: nat)
    requires cs <= ce <= |s|
  {
    (cs + 2 <= ce && HasAt(s, ce - 2, "px") && DecimalBetween(s, cs, ce - 2)) ||
    (cs + 3 <= ce && HasAt(s, ce - 3, "rem") && DecimalBetween(s, cs, ce - 3))
  }

  predicate IsDecimal(t: string) {
    DecimalBetween(t, 0, |t|)
  }

  predicate IsCapture(c: string) {
    CaptureBetween(c, 0, |c|)
  }

  /** The declaration `name`, then `\s*`, then a capture spanning
      `s[cs..ce]`, begins at position `p` of `s`. */
  predicate DeclAt(s: string, name: string, p: nat, cs: nat, ce: nat) {
    HasAt(s, p, name) && p + |name| <= cs <= ce <= |s| &&
    (forall k :: p + |name| <= k < cs ==> IsSpace(s[k])) &&
    CaptureBetween(s, cs, ce)
  }

  /** A successful match: where it begins and where group 1 lies. */
  datatype Match = Match(at: nat, start: nat, end: nat)

  /** `(?:\.\d+)?` after the integer digits ending at `d`: where the
      fraction ends, or `d` when there is none. */
  function FractionEnd(s: string, d: nat): (e: nat)
    requires d <= |s|
    ensures d <= e <= |s|
  {
    if d + 1 < |s| && s[d] == '.' && IsDigit(s[d + 1]) then SkipDigits(s, d + 1) else d
  }

  /** Group 1 tried from position `cs`: where the capture ends. */
  function CaptureEnd(s: string, cs: nat): (ce: Option<nat>)
    requires cs <= |s|
    ensures ce.Some? ==> cs <= ce.value <= |s|
  {
    var d := SkipDigits(s, cs);
    if d == cs then None
    else
      var e := FractionEnd(s, d);
      if HasAt(s, e, "rem") then Some(e + 3)
      else if HasAt(s, e, "px") then Some(e + 2)
      else None
  }

  /** What CaptureEnd finds is a capture. */
  lemma CaptureEndSound(s: string, cs: nat)
    requires cs <= |s| && CaptureEnd(s, cs).Some?
    ensures CaptureBetween(s, cs, CaptureEnd(s, cs).value)
  {
  }

  /** The converse of CaptureEndSound: a capture starting at `cs` is found,
      and found whole. */
  lemma CaptureEndComplete(s: string, cs: nat, ce: nat)
    requires cs <= ce <= |s| && CaptureBetween(s, cs, ce)
    ensures CaptureEnd(s, cs) == Some(ce)
  {
    var isPx := cs + 2 <= ce && HasAt(s, ce - 2, "px") && DecimalBetween(s, cs, ce - 2);
    var b := if isPx then ce - 2 else ce - 3;
    var unit := if isPx then "px" else "rem";
    assert HasAt(s, b, unit) && DecimalBetween(s, cs, b);
    assert s[b] == s[b..b + |unit|][0] == unit[0];
    var d := SkipDigits(s, cs);
    if d < b {
      assert IsDigit(s[d + 1]);
    }
    assert FractionEnd(s, d) == b;
    if isPx {
      assert !HasAt(s, b, "rem");
    }
  }

  /** The regular expression tried at position `p` alone, with the greedy
      quantifiers the way JavaScript runs them. */
  function MatchAt(s: string, name: string, p: nat): (m: Option<Match>)
    ensures m.Some? ==> m.value.at == p && p + |name| <= m.value.start <= m.value.end <= |s|
  {
    if !HasAt(s, p, name) then None
    else
      var cs := SkipSpace(s, p + |name|);
      match CaptureEnd(s, cs)
      case Some(ce) => Some(Match(p, cs, ce))
      case None => None
  }

  /** What MatchAt finds is a declaration. */
  lemma MatchAtSound(s: string, name: string, p: nat)
    requires MatchAt(s, name, p).Some?
    ensures var m := MatchAt(s, name, p).value; DeclAt(s, name, p, m.start, m.end)
  {
    CaptureEndSound(s, SkipSpace(s, p + |name|));
  }

  /** The converse of MatchAtSound: whenever a declaration begins at
      `p`, MatchAt finds it, and finds exactly that capture. */
  lemma MatchAtComplete(s: string, name: string, p: nat, cs: nat, ce: nat)
    requires DeclAt(s, name, p, cs, ce)
    ensures MatchAt(s, name, p) == Some(Match(p, cs, ce))
  {
    SpaceBeforeCapture(s, name, p, cs, ce);
    CaptureEndComplete(s, cs, ce);
  }

  /** In a declaration, `\s*` stops where the capture begins. */
  lemma SpaceBeforeCapture(s: string, name: string, p: nat, cs: nat, ce: nat)
    requires DeclAt(s, name, p, cs, ce)
    ensures SkipSpace(s, p + |name|) == cs
  {
    assert IsDigit(s[cs]);
    SkipSpaceAt(s, p + |name|, cs);
  }

  /** No declaration begins at position `q`. */
  ghost predicate NoDeclAt(s: string, name: string, q: nat) {
    forall cs, ce :: !DeclAt(s, name, q, cs, ce)
  }

  lemma NoDeclWhereNoMatch(s: string, name: string, p: nat)
    requires MatchAt(s, name, p).None?
    ensures NoDeclAt(s, name, p)
  {
    forall cs, ce | DeclAt(s, name, p, cs, ce) ensures false {
      MatchAtComplete(s, name, p, cs, ce);
    }
  }

  /** The converse of NoDeclWhereNoMatch. */
  lemma NoMatchWhereNoDecl(s: string, name: string, p: nat)
    requires NoDeclAt(s, name, p)
    ensures MatchAt(s, name, p).None?
  {
    if MatchAt(s, name, p).Some? {
      MatchAtSound(s, name, p);
      assert false;
    }
  }

  /** `RegExp.prototype.exec` from position `from`: the expression tried at
      each position in turn until it matches. */
  function FirstMatch(s: string, name: string, from: nat): Option<Match>
    requires from <= |s|
    decreases |s| - from
  {
    var here := MatchAt(s, name, from);
    if here.Some? || from == |s| then here else FirstMatch(s, name, from + 1)
  }

  /** FirstMatch returns the match at the first position from `from` on
      where MatchAt finds one, and nothing when there is none. */
  lemma FirstMatchFinds(s: string, name: string, from: nat)
    requires from <= |s|
    ensures var m := FirstMatch(s, name, from);
      (m.Some? ==> from <= m.value.at && MatchAt(s, name, m.value.at) == m) &&
      (m.Some? ==> forall q :: from <= q < m.value.at ==> MatchAt(s, name, q).None?) &&
      (m.None? ==> forall q :: from <= q <= |s| ==> MatchAt(s, name, q).None?)
  {
    FirstMatchIsMatch(s, name, from);
    FirstMatchNoneBefore(s, name, from);
  }

  lemma {:induction false} FirstMatchIsMatch(s: string, name: string, from: nat)
    requires from <= |s|
    ensures var m := FirstMatch(s, name, from);
      m.Some? ==> from <= m.value.at && MatchAt(s, name, m.value.at) == m
    decreases |s| - from
  {
    if MatchAt(s, name, from).None? && from < |s| {
      FirstMatchIsMatch(s, name, from + 1);
    }
  }

  /** Every position FirstMatch passes over, up to the match or the end,
      has no match. */
  lemma {:induction false} FirstMatchNoneBefore(s: string, name: string, from: nat)
    requires from <= |s|
    ensures var m := FirstMatch(s, name, from);
      var end := if m.Some? then m.value.at else |s| + 1;
      forall q :: from <= q < end ==> MatchAt(s, name, q).None?
    decreases |s| - from
  {
    if MatchAt(s, name, from).None? && from < |s| {
      FirstMatchNoneBefore(s, name, from + 1);
    }
  }

  /** FirstMatch finds the leftmost declaration in the whole string, and
      finds none when there is none. */
  lemma FirstMatchIsLeftmost(s: string, name: string)
    ensures var m := FirstMatch(s, name, 0);
      (m.Some? ==> DeclAt(s, name, m.value.at, m.value.start, m.value.end) &&
                   forall q: nat :: q < m.value.at ==> NoDeclAt(s, name, q)) &&
      (m.None? ==> forall q: nat :: NoDeclAt(s, name, q))
  {
    FirstMatchFinds(s, name, 0);
    var m := FirstMatch(s, name, 0);
    if m.Some? {
      MatchAtSound(s, name, m.value.at);
    }
    var end := if m.Some? then m.value.at else |s| + 1;
    forall q: nat | q < end ensures NoDeclAt(s, name, q) {
      if q <= |s| {
        NoDeclWhereNoMatch(s, name, q);
      }
    }
    if m.None? {
      forall q: nat ensures NoDeclAt(s, name, q) {
        if q > |s| {
          assert q >= end;
        }
      }
    }
  }

  /** A decimal read inside a window `t` of `s` that contains it. */
  lemma DecimalShift(s: string, t: string, o: nat, a: nat, b: nat)
    requires o <= a <= b <= o + |t| <= |s| && t == s[o..o + |t|]
    requires DecimalBetween(s, a, b)
    ensures DecimalBetween(t, a - o, b - o)
  {
    var d := SkipDigits(s, a);
    SkipDigitsAt(t, a - o, d - o);
    if d < b {
      SkipDigitsAt(t, d - o + 1, b - o);
    }
  }

  /** A decimal read in a window `t` of `s`, when the character that ends it
      lies inside the window too, is a decimal of `s`. */
  lemma DecimalUnshift(s: string, t: string, o: nat, a: nat, b: nat)
    requires o <= a <= b < o + |t| <= |s| && t == s[o..o + |t|]
    requires DecimalBetween(t, a - o, b - o)
    ensures DecimalBetween(s, a, b)
  {
    var d := SkipDigits(t, a - o);
    SkipDigitsAt(s, a, d + o);
    if d < b - o {
      SkipDigitsAt(s, d + o + 1, b);
    }
  }

  /** A decimal ending before the end of a window `s[cs..ce]` is the same
      decimal read inside the window. */
  lemma DecimalWindow(s: string, cs: nat, ce: nat, b: nat)
    requires cs <= b < ce <= |s|
    ensures DecimalBetween(s, cs, b) <==> DecimalBetween(s[cs..ce], 0, b - cs)
  {
    var t := s[cs..ce];
    if DecimalBetween(s, cs, b) { DecimalShift(s, t, cs, cs, b); }
    if DecimalBetween(t, 0, b - cs) { DecimalUnshift(s, t, cs, cs, b); }
  }

  /** A capture inside a string is a capture taken out on its own, and
      conversely. */
  lemma CaptureWindow(s: string, cs: nat, ce: nat)
    requires cs <= ce <= |s|
    ensures CaptureBetween(s, cs, ce) <==> IsCapture(s[cs..ce])
  {
    if ce >= cs + 2 {
      UnitWindow(s, cs, ce, "px");
    }
    if ce >= cs + 3 {
      UnitWindow(s, cs, ce, "rem");
    }
  }

  /** A unit closing a window `s[cs..ce]`, after a decimal, is the same unit
      after the same decimal inside the window. */
  lemma UnitWindow(s: string, cs: nat, ce: nat, unit: string)
    requires cs + |unit| <= ce <= |s|
    requires 0 < |unit|
    ensures HasAt(s, ce - |unit|, unit) && DecimalBetween(s, cs, ce - |unit|)
      <==> HasAt(s[cs..ce], ce - cs - |unit|, unit) && DecimalBetween(s[cs..ce], 0, ce - cs - |unit|)
  {
    var t := s[cs..ce];
    assert t[ce - cs - |unit|..ce - cs] == s[ce - |unit|..ce];
    DecimalWindow(s, cs, ce, ce - |unit|);
  }

  /** `REGEX.exec(style)?.[1]`: group 1 of the leftmost match, if any. */
  function Captured(style: string, name: string): (c: Option<string>)
    ensures c.Some? ==> IsCapture(c.value)
  {
    match FirstMatch(style, name, 0)
    case Some(m) =>
      FirstMatchFinds(style, name, 0);
      MatchAtSound(style, name, m.at);
      CaptureWindow(style, m.start, m.end);
      Some(style[m.start..m.end])
    case None => None
  }

  function DigitValue(c: char): nat
    requires IsDigit(c)
  {
    c as int - '0' as int
  }

  predicate AllDigits(t: string) {
    forall k :: 0 <= k < |t| ==> IsDigit(t[k])
  }

  /** The value of a string of decimal digits. */
  function NatValue(t: string): nat
    requires AllDigits(t)
  {
    if t == [] then 0 else NatValue(t[..|t| - 1]) * 10 + DigitValue(t[|t| - 1])
  }

  function Pow10(k: nat): (r: nat)
    ensures r > 0
  {
    if k == 0 then 1 else 10 * Pow10(k - 1)
  }

  /** `Number(t)` for the strings the regular expression lets through:
      integer digits, optionally a point and fraction digits. */
  function Number(t: string): (r: real)
    requires IsDecimal(t)
    ensures 0.0 <= r
  {
    var k := SkipDigits(t, 0);
    if k == |t| then NatValue(t) as real
    else NatValue(t[..k]) as real + NatValue(t[k + 1..]) as real / Pow10(|t| - k - 1) as real
  }

  /** The decimal digits of `n`, without leading zeros. */
  function NatToString(n: nat): (t: string)
    ensures |t| > 0 && AllDigits(t)
  {
    var d := ['0' + (n % 10) as char];
    if n < 10 then d else NatToString(n / 10) + d
  }

  lemma {:induction false} NatValueOfNatToString(n: nat)
    ensures NatValue(NatToString(n)) == n
  {
    var t := NatToString(n);
    assert t[..|t| - 1] == if n < 10 then [] else NatToString(n / 10);
    if n >= 10 {
      NatValueOfNatToString(n / 10);
    }
  }

  /** `Number` reads back the integer that NatToString wrote. */
  lemma NumberOfNatToString(n: nat)
    ensures IsDecimal(NatToString(n)) && Number(NatToString(n)) == n as real
  {
    var t := NatToString(n);
    SkipDigitsAt(t, 0, |t|);
    NatValueOfNatToString(n);
  }

  /** `s.indexOf(pat, from)` */
  function IndexOf(s: string, pat: string, from: nat): (r: Option<nat>)
    ensures r.Some? ==> from <= r.value && HasAt(s, r.value, pat)
    ensures r.Some? ==> forall j :: from <= j < r.value ==> !HasAt(s, j, pat)
    ensures r.None? ==> forall j :: from <= j ==> !HasAt(s, j, pat)
    decreases |s| - from
  {
    if from + |pat| > |s| then None
    else if HasAt(s, from, pat) then Some(from)
    else IndexOf(s, pat, from + 1)
  }

  /** `s.includes(pat)` */
  function Includes(s: string, pat: string): (b: bool)
    ensures b <==> exists j: nat :: HasAt(s, j, pat)
  {
    IndexOf(s, pat, 0).Some?
  }

  /** `s.replace(pat, rep)` with a string pattern: only the first occurrence. */
  function ReplaceFirst(s: string, pat: string, rep: string): (r: string)
    ensures !Includes(s, pat) ==> r == s
    ensures Includes(s, pat) ==>
      |r| == |s| - |pat| + |rep| && r[..IndexOf(s, pat, 0).value] == s[..IndexOf(s, pat, 0).value]
    ensures Includes(s, pat) ==> var i := IndexOf(s, pat, 0).value;
      r[i..i + |rep|] == rep && r[i + |rep|..] == s[i + |pat|..]
  {
    match IndexOf(s, pat, 0)
    case None => s
    case Some(i) => s[..i] + rep + s[i + |pat|..]
  }

  /** A decimal holds only digits and the point. */
  lemma DecimalChars(s: string, a: nat, b: nat)
    requires a <= b <= |s| && DecimalBetween(s, a, b)
    ensures forall k :: a <= k < b ==> IsDigit(s[k]) || s[k] == '.'
  {
  }

  /** The capture `c` is a number of pixels / of rems. */
  predicate InPixels(c: string) {
    2 <= |c| && HasAt(c, |c| - 2, "px")
  }

  predicate InRems(c: string) {
    3 <= |c| && HasAt(c, |c| - 3, "rem")
  }

  lemma UnitsDiffer(c: string)
    ensures !(InPixels(c) && InRems(c))
  {
    if InPixels(c) {
      assert c[|c| - 1] == c[|c| - 2..][1] == 'x';
    }
  }

  /** A capture carries exactly one unit, and its number is a decimal. */
  lemma CaptureParts(c: string)
    requires IsCapture(c)
    ensures InPixels(c) != InRems(c)
    ensures InPixels(c) ==> IsDecimal(c[..|c| - 2])
    ensures InRems(c) ==> IsDecimal(c[..|c| - 3])
  {
    UnitsDiffer(c);
    if InPixels(c) {
      DecimalShift(c, c[..|c| - 2], 0, 0, |c| - 2);
    } else {
      DecimalShift(c, c[..|c| - 3], 0, 0, |c| - 3);
    }
  }

  /** The number a capture writes before its unit. */
  function Magnitude(c: string): real
    requires IsCapture(c)
  {
    CaptureParts(c);
    if InPixels(c) then Number(c[..|c| - 2]) else Number(c[..|c| - 3])
  }

  /** A pattern whose first letter does not occur before position `n` does
      not occur before `n`. */
  lemma AbsentBefore(s: string, pat: string, n: nat)
    requires |pat| > 0 && n <= |s|
    requires forall k :: 0 <= k < n ==> s[k] != pat[0]
    ensures forall j: nat :: j < n ==> !HasAt(s, j, pat)
  {
    forall j: nat | j < n ensures !HasAt(s, j, pat) {
      if j + |pat| <= |s| {
        assert s[j..j + |pat|][0] == s[j];
      }
    }
  }

  /** `includes` and `replace` find a capture's unit only where it ends the
      capture, so replacing it with nothing leaves the number. */
  lemma ReplaceUnit(c: string)
    requires IsCapture(c)
    ensures InPixels(c) ==> Includes(c, "px") && ReplaceFirst(c, "px", "") == c[..|c| - 2]
    ensures InRems(c) ==> !Includes(c, "px") && Includes(c, "rem") && ReplaceFirst(c, "rem", "") == c[..|c| - 3]
  {
    CaptureParts(c);
    if InPixels(c) {
      DecimalChars(c, 0, |c| - 2);
      ReplacePixels(c);
    } else {
      DecimalChars(c, 0, |c| - 3);
      ReplaceRems(c);
    }
  }

  lemma ReplacePixels(c: string)
    requires InPixels(c)
    requires forall k :: 0 <= k < |c| - 2 ==> IsDigit(c[k]) || c[k] == '.'
    ensures IndexOf(c, "px", 0) == Some(|c| - 2)
  {
    var at := |c| - 2;
    AbsentBefore(c, "px", at);
    var r := IndexOf(c, "px", 0);
    assert r.Some? by {
      assert HasAt(c, at, "px");
    }
    assert at <= r.value by {
      assert HasAt(c, r.value, "px");
    }
    assert r.value <= at by {
      assert HasAt(c, at, "px");
    }
  }

  lemma ReplaceRems(c: string)
    requires InRems(c)
    requires forall k :: 0 <= k < |c| - 3 ==> IsDigit(c[k]) || c[k] == '.'
    ensures IndexOf(c, "px", 0).None?
    ensures IndexOf(c, "rem", 0) == Some(|c| - 3)
  {
    NoPixelsInRems(c);
    var at := |c| - 3;
    AbsentBefore(c, "rem", at);
    var r := IndexOf(c, "rem", 0);
    assert r.Some? by {
      assert HasAt(c, at, "rem");
    }
    assert at <= r.value by {
      assert HasAt(c, r.value, "rem");
    }
    assert r.value <= at by {
      assert HasAt(c, at, "rem");
    }
  }

  lemma NoPixelsInRems(c: string)
    requires InRems(c)
    requires forall k :: 0 <= k < |c| - 3 ==> IsDigit(c[k]) || c[k] == '.'
    ensures IndexOf(c, "px", 0).None?
  {
    var unit := c[|c| - 3..];
    assert unit == "rem";
    assert c[|c| - 3] == unit[0] && c[|c| - 2] == unit[1] && c[|c| - 1] == unit[2];
    AbsentBefore(c, "px", |c|);
  }

  /** `ConvertToPx` on the value the offset regular expression captured, or
      on `undefined`. */
  function ConvertToPx(value: Option<string>, rootFontSize: real): (px: real)
    requires value.Some? ==> IsCapture(value.value)
    ensures 0.0 <= rootFontSize ==> 0.0 <= px
  {
    if value.Some? then
      var v := value.value;
      ReplaceUnit(v);
      CaptureParts(v);
      if Includes(v, "px") then
        Number(ReplaceFirst(v, "px", ""))
      else if Includes(v, "rem") then
        RemToPx(Number(ReplaceFirst(v, "rem", "")), rootFontSize)
      else 0.0
    else 0.0
  }

  /** A length in rems, in pixels. */
  function RemToPx(rems: real, rootFontSize: real): (px: real)
    ensures 0.0 <= rems && 0.0 <= rootFontSize ==> 0.0 <= px
  {
    rems * rootFontSize
  }

  /** ConvertToPx gives the number before `px`, the number before `rem`
      times the root element's font size, and 0 for `undefined`. */
  lemma ConvertToPxUnits(value: Option<string>, rootFontSize: real)
    requires value.Some? ==> IsCapture(value.value)
    ensures value.None? ==> ConvertToPx(value, rootFontSize) == 0.0
    ensures value.Some? && InPixels(value.value) ==> ConvertToPx(value, rootFontSize) == Magnitude(value.value)
    ensures value.Some? && InRems(value.value) ==>
      ConvertToPx(value, rootFontSize) == RemToPx(Magnitude(value.value), rootFontSize)
  {
    if value.Some? {
      var v := value.value;
      ReplaceUnit(v);
      CaptureParts(v);
      if InPixels(v) {
        assert ConvertToPx(value, rootFontSize) == Number(v[..|v| - 2]);
      } else {
        assert ConvertToPx(value, rootFontSize) == RemToPx(Number(v[..|v| - 3]), rootFontSize);
      }
    }
  }

  /** The pixel offset an inline style declares for the property `name`,
      or 0 when it declares none in the recognised form. */
  function StyleOffset(style: string, name: string, rootFontSize: real): real {
    ConvertToPx(Captured(style, name), rootFontSize)
  }

  /** A style that declares no offset for `name` in the recognised form
      reads as 0 pixels: `ConvertToPx(undefined)`. */
  lemma StyleOffsetWithoutDecl(style: string, name: string, rootFontSize: real)
    requires forall q: nat :: NoDeclAt(style, name, q)
    ensures StyleOffset(style, name, rootFontSize) == 0.0
  {
    forall q | 0 <= q <= |style| ensures MatchAt(style, name, q).None? {
      NoMatchWhereNoDecl(style, name, q);
    }
    FirstMatchFinds(style, name, 0);
    assert FirstMatch(style, name, 0).None?;
    ConvertToPxUnits(None, rootFontSize);
  }

  datatype Unit = Px | Rem

  function UnitText(u: Unit): string {
    match u
    case Px => "px"
    case Rem => "rem"
  }

  /** A decimal followed by `px` or `rem` is a capture with that unit. */
  lemma DecimalThenUnit(t: string, unit: string)
    requires IsDecimal(t)
    requires unit == "px" || unit == "rem"
    ensures var c := t + unit;
      HasAt(c, |t|, unit) && DecimalBetween(c, 0, |t|)
  {
    var c := t + unit;
    var d := SkipDigits(t, 0);
    assert c[|t|] == unit[0];
    assert forall k :: 0 <= k < |t| ==> c[k] == t[k];
    SkipDigitsAt(c, 0, d);
    if d < |t| {
      SkipDigitsAt(c, d + 1, |t|);
    }
    assert c[|t|..|t| + |unit|] == unit;
  }

  /** `name`, white space, a capture, then anything: a declaration at the
      start of the string. */
  lemma DeclOfParts(name: string, ws: string, c: string, rest: string)
    requires forall k :: 0 <= k < |ws| ==> IsSpace(ws[k])
    requires IsCapture(c)
    ensures DeclAt(name + ws + c + rest, name, 0, |name| + |ws|, |name| + |ws| + |c|)
  {
    var style := name + ws + c + rest;
    CaptureInside(name + ws, c, rest);
    assert style[0..|name|] == name;
    assert forall k :: |name| <= k < |name| + |ws| ==> style[k] == ws[k - |name|];
  }

  /** A capture placed inside a string is a capture there. */
  lemma CaptureInside(prefix: string, c: string, rest: string)
    requires IsCapture(c)
    ensures CaptureBetween(prefix + c + rest, |prefix|, |prefix| + |c|)
  {
    var s := prefix + c + rest;
    assert s[|prefix|..|prefix| + |c|] == c;
    CaptureWindow(s, |prefix|, |prefix| + |c|);
  }

  /** A declaration at the start of the string is the one `exec` captures. */
  lemma CapturedAtStart(style: string, name: string, cs: nat, ce: nat)
    requires DeclAt(style, name, 0, cs, ce)
    ensures Captured(style, name) == Some(style[cs..ce])
  {
    MatchAtComplete(style, name, 0, cs, ce);
  }

  /** A style that starts with `name`, white space and a capture reads
      back as that capture converted. */
  lemma StyleOffsetOfCapture(name: string, ws: string, c: string, rest: string, rootFontSize: real)
    requires forall k :: 0 <= k < |ws| ==> IsSpace(ws[k])
    requires IsCapture(c)
    ensures StyleOffset(name + ws + c + rest, name, rootFontSize) == ConvertToPx(Some(c), rootFontSize)
  {
    CapturedOfParts(name, ws, c, rest);
  }

  /** `exec` on such a style captures exactly `c`. */
  lemma CapturedOfParts(name: string, ws: string, c: string, rest: string)
    requires forall k :: 0 <= k < |ws| ==> IsSpace(ws[k])
    requires IsCapture(c)
    ensures Captured(name + ws + c + rest, name) == Some(c)
  {
    DeclOfParts(name, ws, c, rest);
    CapturedAtStart(name + ws + c + rest, name, |name| + |ws|, |name| + |ws| + |c|);
    assert (name + ws + c + rest)[|name| + |ws|..|name| + |ws| + |c|] == c;
  }

  /** A decimal number of pixels or rems converts to that many pixels. */
  lemma DecimalCaptureToPx(t: string, u: Unit, rootFontSize: real)
    requires IsDecimal(t)
    ensures IsCapture(t + UnitText(u))
    ensures ConvertToPx(Some(t + UnitText(u)), rootFontSize)
      == if u == Px then Number(t) else RemToPx(Number(t), rootFontSize)
  {
    DecimalCapture(t, u);
    ConvertToPxUnits(Some(t + UnitText(u)), rootFontSize);
  }

  /** A decimal followed by a unit is a capture in that unit, whose number
      is that decimal. */
  lemma DecimalCapture(t: string, u: Unit)
    requires IsDecimal(t)
    ensures var c := t + UnitText(u);
      IsCapture(c) && (InPixels(c) <==> u == Px) && Magnitude(c) == Number(t)
  {
    var c := t + UnitText(u);
    DecimalThenUnit(t, UnitText(u));
    UnitsDiffer(c);
    assert IsCapture(c);
    assert c[..|t|] == t;
    if u == Px {
      assert InPixels(c) && c[..|c| - 2] == t;
    } else {
      assert InRems(c) && c[..|c| - 3] == t;
    }
  }

  /** The value of `a.f`: the integer digits plus the fraction digits
      scaled down by their count. */
  lemma NumberOfParts(a: string, f: string)
    requires |a| > 0 && AllDigits(a) && |f| > 0 && AllDigits(f)
    ensures IsDecimal(a + "." + f)
    ensures Number(a + "." + f) == NatValue(a) as real + NatValue(f) as real / Pow10(|f|) as real
  {
    var t := a + "." + f;
    FractionShape(a, f);
    var ia, fa := t[..|a|], t[|a| + 1..];
    assert Number(t) == NatValue(ia) as real + NatValue(fa) as real / Pow10(|t| - |a| - 1) as real;
  }

  /** `a.f` is a decimal whose integer digits end at the point. */
  lemma FractionShape(a: string, f: string)
    requires |a| > 0 && AllDigits(a) && |f| > 0 && AllDigits(f)
    ensures var t := a + "." + f;
      IsDecimal(t) && SkipDigits(t, 0) == |a| && |t| - |a| - 1 == |f| &&
      t[..|a|] == a && t[|a| + 1..] == f
  {
    var t := a + "." + f;
    assert |t| == |a| + 1 + |f| && t[|a|] == '.';
    assert forall k :: 0 <= k < |a| ==> t[k] == a[k];
    assert forall k :: |a| + 1 <= k < |t| ==> t[k] == f[k - |a| - 1];
    SkipDigitsAt(t, 0, |a|);
    SkipDigitsAt(t, |a| + 1, |t|);
    assert t[..|a|] == a;
    assert t[|a| + 1..] == f;
  }

  /** A style that starts with `name`, white space, a whole number of
      pixels or rems, and anything after, reads back as that many pixels. */
  lemma StyleOffsetRoundTrip(name: string, ws: string, n: nat, u: Unit, rest: string, rootFontSize: real)
    requires forall k :: 0 <= k < |ws| ==> IsSpace(ws[k])
    ensures var style := name + ws + (NatToString(n) + UnitText(u)) + rest;
      StyleOffset(style, name, rootFontSize) == if u == Px then n as real else RemToPx(n as real, rootFontSize)
  {
    var c := NatToString(n) + UnitText(u);
    NumberOfNatToString(n);
    DecimalCaptureToPx(NatToString(n), u, rootFontSize);
    StyleOffsetOfCapture(name, ws, c, rest, rootFontSize);
  }

  /** The same for a number with a fraction, `a.f` pixels or rems. */
  lemma StyleOffsetFractionRoundTrip(name: string, ws: string, a: string, f: string, u: Unit, rest: string, rootFontSize: real)
    requires forall k :: 0 <= k < |ws| ==> IsSpace(ws[k])
    requires |a| > 0 && AllDigits(a) && |f| > 0 && AllDigits(f)
    ensures var style := name + ws + (a + "." + f + UnitText(u)) + rest;
      var v := NatValue(a) as real + NatValue(f) as real / Pow10(|f|) as real;
      StyleOffset(style, name, rootFontSize) == if u == Px then v else RemToPx(v, rootFontSize)
  {
    var t := a + "." + f;
    var v := NatValue(a) as real + NatValue(f) as real / Pow10(|f|) as real;
    NumberOfParts(a, f);
    assert Number(t) == v;
    DecimalCaptureToPx(t, u, rootFontSize);
    StyleOffsetOfCapture(name, ws, t + UnitText(u), rest, rootFontSize);
  }

  /** `--ss-scroll-offset-x: 2rem` with a 16px root font gives 32px. */
  lemma TwoRemIsThirtyTwoPixels(style: string)
    requires style == "--ss-scroll-offset-x: 2rem"
    ensures StyleOffset(style, OffsetXProperty, 16.0) == 32.0
  {
    assert RemToPx(2.0, 16.0) == 32.0;
    assert NatToString(2) == "2";
    assert style == OffsetXProperty + " " + (NatToString(2) + UnitText(Rem)) + "";
    StyleOffsetRoundTrip(OffsetXProperty, " ", 2, Rem, "", 16.0);
  }
}
