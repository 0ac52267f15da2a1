/** ISO 8601 interval helpers of the backup retention program. Retention
    rules are repeating intervals such as `R5/PT1H` ("keep one backup in
    each of the last 5 hours"); the helpers take them apart with regular
    expressions, modelled here by what each expression accepts and what
    its groups capture. */
module RetentionIntervals {
  import opened Wrappers
  import opened Text

  // ---------------------------------------------------------------------
  // Resolutions: `^P(T?)(0*[1-9][0-9]*)([YMWDHS])$`

  /** `[YMWDHS]`, the unit letters of a one-element resolution. */
  predicate IsResolutionUnit(c: char) {
    c == 'Y' || c == 'M' || c == 'W' || c == 'D' || c == 'H' || c == 'S'
  }

  /** `0*[1-9][0-9]*`: digits, not all of them zero. */
  predicate IsMagnitude(s: string) {
    |s| >= 1 && AllDigits(s) && !AllZeros(s)
  }

  /** `UNIT_DURATION_TO_DATETIME`: (time mark, element letter) to the
      `datetime.replace()` unit. */
  const UnitDurationToDatetime: map<(string, char), string> :=
    map[("", 'Y') := "year", ("", 'M') := "month", ("", 'W') := "week", ("", 'D') := "day",
        ("T", 'H') := "hour", ("T", 'M') := "minute", ("T", 'S') := "second"]

  /** The groups of `RESOLUTION_REGEXP` when `re.match` succeeds. `T?` is
      greedy and nothing after it can be a `T`, so the match is unique. */
  function ResolutionMatch(s: string): Option<(string, string, char)> {
    if |s| >= 3 && s[0] == 'P' then
      var tm := if s[1] == 'T' then "T" else "";
      var body := s[1 + |tm|..];
      if |body| >= 2 && IsResolutionUnit(body[|body| - 1]) && IsMagnitude(body[..|body| - 1]) then
        Some((tm, body[..|body| - 1], body[|body| - 1]))
      else None
    else None
  }

  datatype ResolutionInfo = ResolutionInfo(magnitude: nat, timeMark: string, unitDuration: char, unitDatetime: string)

  function UnitDatetime(tm: string, u: char): string {
    if (tm, u) in UnitDurationToDatetime then UnitDurationToDatetime[(tm, u)] else ""
  }

  /** Every unit of the table is a non-empty name, so the `""` default
      of the lookup marks exactly the pairs it lacks. */
  lemma UnitDatetimeIff(tm: string, u: char)
    ensures UnitDatetime(tm, u) != "" <==> (tm, u) in UnitDurationToDatetime
  {
  }

  /** `resolution_decode` as written: it calls `.group` on the result of
      `re.match` without checking it, so a string that does not match
      raises AttributeError, although its documentation promises None. */
  function ResolutionDecodeAsWritten(s: string): Result<Option<ResolutionInfo>> {
    match ResolutionMatch(s)
    case None => Err(AttributeError("'NoneType' object has no attribute 'group'"))
    case Some((tm, digits, u)) =>
      var ud := UnitDatetime(tm, u);
      Ok(if ud != "" then Some(ResolutionInfo(ParseNat(digits), tm, u, ud)) else None)
  }

  /** `resolution_decode` as documented: None for any invalid resolution,
      whether it fails the expression or pairs a unit with the wrong time
      mark (`PT1D`). */
  function ResolutionDecode(s: string): Option<ResolutionInfo> {
    match ResolutionMatch(s)
    case None => None
    case Some((tm, digits, u)) =>
      var ud := UnitDatetime(tm, u);
      if ud != "" then Some(ResolutionInfo(ParseNat(digits), tm, u, ud)) else None
  }

  /** The two agree on every string the expression matches, and the code
      as written raises exactly on the others. */
  lemma ResolutionDecodeAgrees(s: string)
    ensures ResolutionDecodeAsWritten(s).Err? <==> ResolutionMatch(s).None?
    ensures ResolutionDecodeAsWritten(s).Ok? ==> ResolutionDecodeAsWritten(s).value == ResolutionDecode(s)
  {
  }

  /** `P0D` is an invalid resolution: the documented result is None, the
      code raises. */
  lemma ResolutionDecodeRaises()
    ensures ResolutionDecodeAsWritten("P0D").Err? && ResolutionDecodeAsWritten("P0D").error.AttributeError?
    ensures ResolutionDecode("P0D") == None
  {
    var body := "P0D"[1..];
    assert body[..|body| - 1] == "0";
    assert AllZeros("0");
  }

  /** The canonical spelling of a resolution. */
  function ResolutionString(tm: string, n: nat, u: char): string {
    "P" + tm + NatToString(n) + [u]
  }

  lemma {:induction false} NatToStringMagnitude(z: string, n: nat)
    requires AllZeros(z) && n >= 1
    ensures IsMagnitude(z + NatToString(n)) && ParseNat(z + NatToString(n)) == n
  {
    var s := NatToString(n);
    ParseNatLeadingZeros(z, s);
    ParseNatToString(n);
    assert (z + s)[|z|] == s[0];
  }

  lemma ResolutionMatchString(tm: string, digits: string, u: char)
    requires tm == "" || tm == "T"
    requires IsMagnitude(digits) && IsResolutionUnit(u)
    ensures ResolutionMatch("P" + tm + digits + [u]) == Some((tm, digits, u))
  {
    var s := "P" + tm + digits + [u];
    assert s[1] == if tm == "T" then 'T' else digits[0];
    var body := s[1 + |tm|..];
    assert body == digits + [u];
    assert body[..|body| - 1] == digits;
  }

  /** A resolution with any number of leading zeros decodes to its parts;
      a pair the table lacks (`PT1D`, `P1H`) decodes to None. */
  lemma ResolutionDecodeString(tm: string, z: string, n: nat, u: char)
    requires tm == "" || tm == "T"
    requires AllZeros(z) && n >= 1 && IsResolutionUnit(u)
    ensures var s := "P" + tm + z + NatToString(n) + [u];
      ResolutionDecode(s) == if UnitDatetime(tm, u) != "" then Some(ResolutionInfo(n, tm, u, UnitDatetime(tm, u))) else None
  {
    var digits := z + NatToString(n);
    NatToStringMagnitude(z, n);
    assert "P" + tm + z + NatToString(n) + [u] == "P" + tm + digits + [u];
    ResolutionMatchString(tm, digits, u);
  }

  /** A decoded resolution is spelled canonically by its own parts: the
      magnitude is at least 1 and the pair is in the table. */
  lemma ResolutionDecodeCanonical(s: string)
    requires ResolutionDecode(s).Some?
    ensures var r := ResolutionDecode(s).value;
      && r.magnitude >= 1 && (r.timeMark, r.unitDuration) in UnitDurationToDatetime
      && r.unitDatetime == UnitDurationToDatetime[(r.timeMark, r.unitDuration)]
      && ResolutionDecode(ResolutionString(r.timeMark, r.magnitude, r.unitDuration)) == Some(r)
  {
    var r := ResolutionDecode(s).value;
    var (tm, digits, u) := ResolutionMatch(s).value;
    NonZeroDigitsPositive(digits);
    ResolutionDecodeOf(tm, r.magnitude, u);
  }

  /** The canonical spelling decodes to its parts. */
  lemma ResolutionDecodeOf(tm: string, n: nat, u: char)
    requires tm == "" || tm == "T"
    requires n >= 1 && IsResolutionUnit(u)
    ensures ResolutionDecode(ResolutionString(tm, n, u)) ==
              if UnitDatetime(tm, u) != "" then Some(ResolutionInfo(n, tm, u, UnitDatetime(tm, u))) else None
  {
    ResolutionDecodeString(tm, "", n, u);
    EmptyRight("P" + tm);
  }

  lemma {:induction false} NonZeroDigitsPositive(s: string)
    requires AllDigits(s) && !AllZeros(s)
    ensures ParseNat(s) >= 1
    decreases |s|
  {
    var front := s[..|s| - 1];
    if AllZeros(front) {
      assert s[|s| - 1] != '0';
    } else {
      NonZeroDigitsPositive(front);
    }
  }

  /** `RESOLUTIONS_OK`, smallest last. */
  const ResolutionsOk: seq<string> :=
    ["P1Y", "P1M", "P1W", "P1D", "PT12H", "PT6H", "PT4H", "PT3H", "PT2H", "PT1H", "PT30M", "PT20M", "PT10M"]

  /** The parts of each supported resolution. */
  const ResolutionsOkParts: seq<(string, nat, char)> :=
    [("", 1, 'Y'), ("", 1, 'M'), ("", 1, 'W'), ("", 1, 'D'), ("T", 12, 'H'), ("T", 6, 'H'), ("T", 4, 'H'),
     ("T", 3, 'H'), ("T", 2, 'H'), ("T", 1, 'H'), ("T", 30, 'M'), ("T", 20, 'M'), ("T", 10, 'M')]

  lemma ResolutionsOkSpelled()
    ensures |ResolutionsOk| == |ResolutionsOkParts|
    ensures forall i :: 0 <= i < |ResolutionsOk| ==>
              var (tm, n, u) := ResolutionsOkParts[i]; ResolutionsOk[i] == ResolutionString(tm, n, u)
  {
    assert NatToString(12) == "12" && NatToString(30) == "30" && NatToString(20) == "20" && NatToString(10) == "10";
  }

  /** Every supported resolution decodes, so `period_start_strs_get` never
      meets the None result nor the AttributeError. */
  lemma ResolutionsOkDecode()
    ensures forall i :: 0 <= i < |ResolutionsOk| ==> ResolutionDecode(ResolutionsOk[i]).Some?
  {
    ResolutionsOkSpelled();
    forall i | 0 <= i < |ResolutionsOk|
      ensures ResolutionDecode(ResolutionsOk[i]).Some?
    {
      var (tm, n, u) := ResolutionsOkParts[i];
      ResolutionDecodeOf(tm, n, u);
    }
  }

  // ---------------------------------------------------------------------
  // Repetitions: `^R(|0*[1-9][0-9]*)/`

  /** `REPS_INFINITE`. */
  const RepsInfinite: nat := 0

  /** The longest prefix of ASCII digits. */
  function DigitRun(s: string): (d: string)
    ensures |d| <= |s| && d == s[..|d|] && AllDigits(d)
    ensures |d| < |s| ==> !IsDigit(s[|d|])
  {
    if s != [] && IsDigit(s[0]) then [s[0]] + DigitRun(s[1..]) else []
  }

  lemma {:induction false} DigitRunOf(d: string, rest: string)
    requires AllDigits(d) && (rest == [] || !IsDigit(rest[0]))
    ensures DigitRun(d + rest) == d
    decreases |d|
  {
    if d != [] {
      assert (d + rest)[1..] == d[1..] + rest;
      DigitRunOf(d[1..], rest);
    }
  }

  /** `interval_reps_get`: 0 for `R/`, n for `Rn/` (leading zeros
      allowed), None when there is no valid repetition part. The empty
      alternative is tried first; otherwise `[0-9]*` can only stop at the
      end of the digit run, which `/` must follow. */
  function IntervalReps(s: string): Option<nat> {
    if |s| >= 2 && s[0] == 'R' then
      var d := DigitRun(s[1..]);
      if d == [] then (if s[1] == '/' then Some(RepsInfinite) else None)
      else if 1 + |d| < |s| && s[1 + |d|] == '/' && !AllZeros(d) then Some(ParseNat(d))
      else None
    else None
  }

  lemma IntervalRepsInfinite(rest: string)
    ensures IntervalReps("R/" + rest) == Some(RepsInfinite)
  {
    var s := "R/" + rest;
    assert s[1..][0] == '/';
  }

  /** `Rn/` gives n for n >= 1, leading zeros or not. */
  lemma IntervalRepsCount(z: string, n: nat, rest: string)
    requires AllZeros(z) && n >= 1
    ensures IntervalReps("R" + z + NatToString(n) + "/" + rest) == Some(n)
  {
    var d := z + NatToString(n);
    var s := "R" + z + NatToString(n) + "/" + rest;
    NatToStringMagnitude(z, n);
    assert s[1..] == d + ("/" + rest);
    DigitRunOf(d, "/" + rest);
    assert s[1 + |d|] == '/';
  }

  /** `R0/` (any number of zeros) is not a valid repetition part. */
  lemma IntervalRepsZero(z: string, rest: string)
    requires AllZeros(z) && z != []
    ensures IntervalReps("R" + z + "/" + rest) == None
  {
    var s := "R" + z + "/" + rest;
    assert AllDigits(z);
    assert s[1..] == z + ("/" + rest);
    DigitRunOf(z, "/" + rest);
  }

  /** Without a leading `R` there is no repetition part. */
  lemma IntervalRepsAbsent(s: string)
    requires s == [] || s[0] != 'R'
    ensures IntervalReps(s) == None
  {
  }

  /** The repetition part `interval_gen` hands to aniso8601: a
      non-repeating interval is repeated twice (its start and end), an
      infinite one stays infinite, and a definite count gets one extra
      repetition for the fencepost. */
  function RepeatPart(reps: Option<nat>): string {
    match reps
    case None => "R2"
    case Some(n) => if n == RepsInfinite then "R" else "R" + NatToString(n + 1)
  }

  /** The interval string `interval_gen` builds around the duration and
      the period start date. */
  function GenInterval(reps: Option<nat>, durationPart: string, dateContextPart: string, contextForward: bool): string {
    RepeatPart(reps) + "/" + (if contextForward then dateContextPart + "/" + durationPart else durationPart + "/" + dateContextPart)
  }

  /** Read back, the generated interval has 2 repetitions when the rule
      had none, stays infinite, and otherwise has one more than the rule,
      so it always yields at least two dates unless infinite. */
  lemma GenIntervalReps(reps: Option<nat>, durationPart: string, dateContextPart: string, contextForward: bool)
    ensures reps.None? ==> IntervalReps(GenInterval(reps, durationPart, dateContextPart, contextForward)) == Some(2)
    ensures reps == Some(RepsInfinite) ==>
              IntervalReps(GenInterval(reps, durationPart, dateContextPart, contextForward)) == Some(RepsInfinite)
    ensures reps.Some? && reps.value != RepsInfinite ==>
              IntervalReps(GenInterval(reps, durationPart, dateContextPart, contextForward)) == Some(reps.value + 1)
  {
    var rest := if contextForward then dateContextPart + "/" + durationPart else durationPart + "/" + dateContextPart;
    assert GenInterval(reps, durationPart, dateContextPart, contextForward) == RepeatPart(reps) + "/" + rest;
    if reps.None? {
      assert NatToString(2) == "2";
      assert RepeatPart(reps) == "R" + NatToString(2);
      IntervalRepsOf(2, rest);
    } else if reps.value == RepsInfinite {
      assert RepeatPart(reps) + "/" == "R/";
      IntervalRepsInfinite(rest);
    } else {
      IntervalRepsOf(reps.value + 1, rest);
    }
  }

  lemma EmptyRight(a: string)
    ensures a + "" == a
  {
  }

  /** `Rn/` without leading zeros. */
  lemma IntervalRepsOf(n: nat, rest: string)
    requires n >= 1
    ensures IntervalReps("R" + NatToString(n) + "/" + rest) == Some(n)
  {
    IntervalRepsCount("", n, rest);
    EmptyRight("R");
  }

  // ---------------------------------------------------------------------
  // Zero removal: `(?<=[PTYMWDHM])0+[YMWDHMS]` replaced by "", then
  // `.strip("T")`

  /** `[PTYMWDHM]`, what the look-behind demands before the zeros. */
  predicate IsLookBehind(c: char) {
    c == 'P' || c == 'T' || c == 'Y' || c == 'M' || c == 'W' || c == 'D' || c == 'H'
  }

  /** `[YMWDHMS]`, the element letters of a duration. */
  predicate IsElementUnit(c: char) {
    c == 'Y' || c == 'M' || c == 'W' || c == 'D' || c == 'H' || c == 'S'
  }

  /** The end of the run of zeros starting at `i`. */
  function ZeroEnd(s: string, i: nat): (k: nat)
    requires i <= |s|
    ensures i <= k <= |s| && (k < |s| ==> s[k] != '0')
    ensures forall j :: i <= j < k ==> s[j] == '0'
    decreases |s| - i
  {
    if i < |s| && s[i] == '0' then ZeroEnd(s, i + 1) else i
  }

  /** A match of the expression starts at `i`: the look-behind reads the
      original string, `0+` is greedy and nothing shorter can be followed
      by a letter. */
  predicate ZeroElementAt(s: string, i: nat)
    requires i < |s|
  {
    i > 0 && IsLookBehind(s[i - 1]) && s[i] == '0' && ZeroEnd(s, i) < |s| && IsElementUnit(s[ZeroEnd(s, i)])
  }

  /** `re.sub` from position `i`: matches are removed left to right and
      the scan resumes after each. */
  function ZeroSub(s: string, i: nat): string
    requires i <= |s|
    decreases |s| - i
  {
    if i == |s| then []
    else if ZeroElementAt(s, i) then ZeroSub(s, ZeroEnd(s, i) + 1)
    else [s[i]] + ZeroSub(s, i + 1)
  }

  function StripLeadingT(s: string): string {
    if s != [] && s[0] == 'T' then StripLeadingT(s[1..]) else s
  }

  function StripTrailingT(s: string): string {
    if s != [] && s[|s| - 1] == 'T' then StripTrailingT(s[..|s| - 1]) else s
  }

  /** `duration_zero_remove`. */
  function ZeroRemove(s: string): string {
    StripTrailingT(StripLeadingT(ZeroSub(s, 0)))
  }

  /** No match of the expression starts in `[i, k)`. */
  predicate NoZeroElementIn(s: string, i: nat, k: nat)
    requires i <= k <= |s|
  {
    forall j :: i <= j < k && s[j] == '0' ==> j > 0 && !IsLookBehind(s[j - 1])
  }

  lemma {:induction false} ZeroSubKeeps(s: string, i: nat, k: nat)
    requires i <= k <= |s| && NoZeroElementIn(s, i, k)
    ensures ZeroSub(s, i) == s[i..k] + ZeroSub(s, k)
    decreases k - i
  {
    if i < k {
      assert !ZeroElementAt(s, i);
      assert NoZeroElementIn(s, i + 1, k);
      ZeroSubKeeps(s, i + 1, k);
      assert s[i..k] == [s[i]] + s[i + 1..k];
      ConsAssoc(s[i], s[i + 1..k], ZeroSub(s, k));
    }
  }

  lemma ConsAssoc(x: char, a: string, b: string)
    ensures [x] + (a + b) == ([x] + a) + b
  {
  }

  /** A duration element: a value and its letter. */
  datatype Element = Element(value: nat, unit: char)

  function ElementsString(es: seq<Element>): string
    decreases |es|
  {
    if es == [] then "" else NatToString(es[0].value) + [es[0].unit] + ElementsString(es[1..])
  }

  function NonZero(es: seq<Element>): (r: seq<Element>)
    ensures forall i :: 0 <= i < |r| ==> r[i] in es
    decreases |es|
  {
    if es == [] then [] else (if es[0].value == 0 then [] else [es[0]]) + NonZero(es[1..])
  }

  /** Every letter is a duration letter, and every letter but the last one
      also satisfies the look-behind, so that a zero element after it is
      seen (only `S` does not, and seconds come last). */
  predicate ElementsOrdered(es: seq<Element>) {
    && (forall i :: 0 <= i < |es| ==> IsElementUnit(es[i].unit))
    && (forall i :: 0 <= i < |es| - 1 ==> IsLookBehind(es[i].unit))
  }

  lemma {:induction false} NatToStringNoZeroElement(s: string, i: nat, n: nat)
    requires n >= 1 && i + |NatToString(n)| <= |s| && s[i..i + |NatToString(n)|] == NatToString(n)
    ensures NoZeroElementIn(s, i, i + |NatToString(n)|)
  {
    var d := NatToString(n);
    forall j | i <= j < i + |d| && s[j] == '0'
      ensures j > 0 && !IsLookBehind(s[j - 1])
    {
      assert s[j] == d[j - i];
      assert j > i;
      assert s[j - 1] == d[j - 1 - i];
    }
  }

  /** What the removal leaves of one element. */
  function Kept(e: Element): string {
    if e.value == 0 then "" else NatToString(e.value) + [e.unit]
  }

  /** A lone `0` after a look-behind letter and before a duration letter
      is removed together with the letter. */
  lemma ZeroSubZero(s: string, i: nat)
    requires 0 < i && i + 1 < |s| && IsLookBehind(s[i - 1]) && s[i] == '0' && IsElementUnit(s[i + 1])
    ensures ZeroSub(s, i) == ZeroSub(s, i + 2)
  {
    assert ZeroEnd(s, i + 1) == i + 1;
    assert ZeroEnd(s, i) == i + 1;
  }

  /** The decimal digits of a positive value are kept. */
  lemma ZeroSubNumber(s: string, i: nat, n: nat)
    requires n >= 1 && i + |NatToString(n)| <= |s| && s[i..i + |NatToString(n)|] == NatToString(n)
    ensures ZeroSub(s, i) == NatToString(n) + ZeroSub(s, i + |NatToString(n)|)
  {
    var d := NatToString(n);
    var k := i + |d|;
    NatToStringNoZeroElement(s, i, n);
    ZeroSubKeeps(s, i, k);
    assert s[i..k] == d;
  }

  /** One element, after a look-behind letter: a zero element is removed,
      any other element kept. */
  lemma ZeroSubElement(s: string, i: nat, e: Element)
    requires 0 < i <= |s| && IsLookBehind(s[i - 1]) && IsElementUnit(e.unit)
    requires i + |NatToString(e.value)| + 1 <= |s|
    requires s[i..i + |NatToString(e.value)|] == NatToString(e.value) && s[i + |NatToString(e.value)|] == e.unit
    ensures ZeroSub(s, i) == Kept(e) + ZeroSub(s, i + |NatToString(e.value)| + 1)
  {
    var d := NatToString(e.value);
    var k := i + |d|;
    if e.value == 0 {
      assert s[i] == d[0];
      ZeroSubZero(s, i);
    } else {
      ZeroSubNumber(s, i, e.value);
      assert ZeroSub(s, k) == [e.unit] + ZeroSub(s, k + 1);
      assert d + ([e.unit] + ZeroSub(s, k + 1)) == (d + [e.unit]) + ZeroSub(s, k + 1);
    }
  }

  lemma ElementsStringCons(es: seq<Element>)
    requires es != []
    ensures ElementsString(es) == NatToString(es[0].value) + [es[0].unit] + ElementsString(es[1..])
  {
  }

  lemma NonZeroCons(es: seq<Element>)
    requires es != []
    ensures ElementsString(NonZero(es)) == Kept(es[0]) + ElementsString(NonZero(es[1..]))
  {
    var e := es[0];
    var r := NonZero(es[1..]);
    if e.value == 0 {
      assert NonZero(es) == r;
    } else {
      assert NonZero(es) == [e] + r;
      assert ([e] + r)[0] == e && ([e] + r)[1..] == r;
      ElementsStringCons([e] + r);
    }
  }

  /** Where the first element and the rest of them sit in `s`. */
  lemma ElementsAt(s: string, i: nat, es: seq<Element>) returns (k: nat)
    requires es != []
    requires i + |ElementsString(es)| <= |s| && s[i..i + |ElementsString(es)|] == ElementsString(es)
    ensures k == i + |NatToString(es[0].value)| + 1
    ensures k + |ElementsString(es[1..])| == i + |ElementsString(es)|
    ensures s[i..k - 1] == NatToString(es[0].value) && s[k - 1] == es[0].unit
    ensures s[k..k + |ElementsString(es[1..])|] == ElementsString(es[1..])
  {
    var d := NatToString(es[0].value);
    var rest := ElementsString(es[1..]);
    ElementsStringCons(es);
    SliceParts(s, i, d, [es[0].unit], rest);
    k := i + |d| + 1;
  }

  /** The three parts of a slice that spells `a + b + c`. */
  lemma SliceParts(s: string, i: nat, a: string, b: string, c: string)
    requires i + |a + b + c| <= |s| && s[i..i + |a + b + c|] == a + b + c
    ensures s[i..i + |a|] == a
    ensures forall j :: 0 <= j < |b| ==> s[i + |a| + j] == b[j]
    ensures s[i + |a| + |b|..i + |a| + |b| + |c|] == c
  {
    var t := a + b + c;
    forall j | 0 <= j < |a|
      ensures s[i..i + |a|][j] == a[j]
    {
      assert s[i + j] == t[j];
    }
    forall j | 0 <= j < |b|
      ensures s[i + |a| + j] == b[j]
    {
      assert s[i + |a| + j] == t[|a| + j];
    }
    forall j | 0 <= j < |c|
      ensures s[i + |a| + |b|..i + |a| + |b| + |c|][j] == c[j]
    {
      assert s[i + |a| + |b| + j] == t[|a| + |b| + j];
    }
  }

  lemma Assoc(a: string, b: string, c: string)
    ensures a + (b + c) == (a + b) + c
  {
  }

  lemma Compose(zi: string, a: string, zk: string, b: string, x: string, c: string)
    requires zi == a + zk && zk == b + x && c == a + b
    ensures zi == c + x
  {
  }

  /** The first element, given what the removal does to the others. */
  lemma ZeroSubStep(s: string, i: nat, es: seq<Element>, end: nat)
    requires es != [] && 0 < i <= |s| && IsLookBehind(s[i - 1]) && IsElementUnit(es[0].unit)
    requires i + |NatToString(es[0].value)| + 1 <= end <= |s|
    requires s[i..i + |NatToString(es[0].value)|] == NatToString(es[0].value) && s[i + |NatToString(es[0].value)|] == es[0].unit
    requires ZeroSub(s, i + |NatToString(es[0].value)| + 1) == ElementsString(NonZero(es[1..])) + ZeroSub(s, end)
    ensures ZeroSub(s, i) == ElementsString(NonZero(es)) + ZeroSub(s, end)
  {
    var k := i + |NatToString(es[0].value)| + 1;
    ZeroSubElement(s, i, es[0]);
    NonZeroCons(es);
    Compose(ZeroSub(s, i), Kept(es[0]), ZeroSub(s, k), ElementsString(NonZero(es[1..])), ZeroSub(s, end), ElementsString(NonZero(es)));
  }

  lemma ElementsOrderedTail(es: seq<Element>)
    requires es != [] && ElementsOrdered(es)
    ensures ElementsOrdered(es[1..]) && IsElementUnit(es[0].unit)
    ensures |es| > 1 ==> IsLookBehind(es[0].unit)
  {
    assert forall j :: 0 <= j < |es[1..]| ==> es[1..][j] == es[j + 1];
  }

  /** Elements after a look-behind letter: the zero ones are removed. */
  lemma {:induction false} ZeroSubElements(s: string, i: nat, es: seq<Element>)
    requires i <= |s| && ElementsOrdered(es)
    requires es != [] ==> 0 < i && IsLookBehind(s[i - 1])
    requires i + |ElementsString(es)| <= |s| && s[i..i + |ElementsString(es)|] == ElementsString(es)
    ensures ZeroSub(s, i) == ElementsString(NonZero(es)) + ZeroSub(s, i + |ElementsString(es)|)
    decreases |es|
  {
    if es != [] {
      var k := ElementsAt(s, i, es);
      ElementsOrderedTail(es);
      ZeroSubElements(s, k, es[1..]);
      ZeroSubStep(s, i, es, i + |ElementsString(es)|);
    } else {
      assert ElementsString(NonZero(es)) == "";
      EmptyLeft(ZeroSub(s, i));
    }
  }

  lemma EmptyLeft(a: string)
    ensures "" + a == a
  {
  }

  /** `P`, the date elements, and `T` with the time elements when there
      are any. */
  function DurationString(date: seq<Element>, time: seq<Element>): string {
    "P" + ElementsString(date) + (if time == [] then "" else "T" + ElementsString(time))
  }

  /** Date letters come before time letters in a duration, and seconds are
      the smallest element. */
  predicate DurationOrdered(date: seq<Element>, time: seq<Element>) {
    && (forall i :: 0 <= i < |date| ==> date[i].unit in {'Y', 'M', 'W', 'D'})
    && (forall i :: 0 <= i < |time| ==> time[i].unit in {'H', 'M', 'S'})
    && (forall i :: 0 <= i < |time| - 1 ==> time[i].unit != 'S')
  }

  lemma {:induction false} ElementsStringNoT(es: seq<Element>)
    requires forall i :: 0 <= i < |es| ==> IsElementUnit(es[i].unit)
    ensures es != [] ==> ElementsString(es)[|ElementsString(es)| - 1] != 'T'
    decreases |es|
  {
    if |es| > 1 {
      ElementsStringNoT(es[1..]);
      assert ElementsString(es) == (NatToString(es[0].value) + [es[0].unit]) + ElementsString(es[1..]);
    }
  }

  lemma ZeroSubDate(date: seq<Element>, time: seq<Element>)
    requires DurationOrdered(date, time)
    ensures var s := DurationString(date, time);
      ZeroSub(s, 1) == ElementsString(NonZero(date)) + ZeroSub(s, 1 + |ElementsString(date)|)
  {
    var s := DurationString(date, time);
    var ds := ElementsString(date);
    assert s == "P" + ds + (if time == [] then "" else "T" + ElementsString(time));
    assert s[1..1 + |ds|] == ds;
    ZeroSubElements(s, 1, date);
  }

  lemma TimeAt(date: seq<Element>, time: seq<Element>)
    requires time != []
    ensures var s := DurationString(date, time); var k := 1 + |ElementsString(date)|;
      var ts := ElementsString(time);
      k + 1 + |ts| == |s| && s[k] == 'T' && s[k + 1..k + 1 + |ts|] == ts
  {
    var s := DurationString(date, time);
    var pre := "P" + ElementsString(date) + "T";
    var ts := ElementsString(time);
    assert s == pre + ts;
    assert s[|pre|..|pre| + |ts|] == ts;
  }

  /** A `T` followed by the time elements, up to the end of `s`. */
  lemma ZeroSubAfterT(s: string, k: nat, time: seq<Element>)
    requires k < |s| && s[k] == 'T' && ElementsOrdered(time)
    requires k + 1 + |ElementsString(time)| == |s| && s[k + 1..|s|] == ElementsString(time)
    ensures ZeroSub(s, k) == "T" + ElementsString(NonZero(time))
  {
    assert !ZeroElementAt(s, k);
    assert ZeroSub(s, k) == [s[k]] + ZeroSub(s, k + 1);
    ZeroSubElements(s, k + 1, time);
    assert ZeroSub(s, |s|) == "";
    EmptyRight(ElementsString(NonZero(time)));
  }

  lemma ZeroSubTime(date: seq<Element>, time: seq<Element>)
    requires DurationOrdered(date, time) && time != []
    ensures var s := DurationString(date, time);
      ZeroSub(s, 1 + |ElementsString(date)|) == "T" + ElementsString(NonZero(time))
  {
    var s := DurationString(date, time);
    var k := 1 + |ElementsString(date)|;
    TimeAt(date, time);
    assert ElementsOrdered(time);
    ZeroSubAfterT(s, k, time);
  }

  lemma ZeroSubTail(date: seq<Element>, time: seq<Element>)
    requires DurationOrdered(date, time)
    ensures ZeroSub(DurationString(date, time), 1 + |ElementsString(date)|) ==
              if time == [] then "" else "T" + ElementsString(NonZero(time))
  {
    if time == [] {
      assert 1 + |ElementsString(date)| == |DurationString(date, time)|;
    } else {
      ZeroSubTime(date, time);
    }
  }

  lemma ZeroSubDuration(date: seq<Element>, time: seq<Element>)
    requires DurationOrdered(date, time)
    ensures ZeroSub(DurationString(date, time), 0) ==
              "P" + ElementsString(NonZero(date)) + (if time == [] then "" else "T" + ElementsString(NonZero(time)))
  {
    var s := DurationString(date, time);
    var x := if time == [] then "" else "T" + ElementsString(NonZero(time));
    assert s[0] == 'P';
    assert ZeroSub(s, 0) == [s[0]] + ZeroSub(s, 1);
    ZeroSubDate(date, time);
    ZeroSubTail(date, time);
    Assoc("P", ElementsString(NonZero(date)), x);
  }

  lemma StripNoT(p: string)
    requires |p| > 0 && p[0] != 'T' && p[|p| - 1] != 'T'
    ensures StripTrailingT(StripLeadingT(p)) == p
    ensures StripTrailingT(StripLeadingT(p + "T")) == p
  {
    assert (p + "T")[0] == p[0];
    assert (p + "T")[..|p + "T"| - 1] == p;
  }

  lemma {:induction false} NonZeroUnits(es: seq<Element>)
    requires forall i :: 0 <= i < |es| ==> IsElementUnit(es[i].unit)
    ensures forall i :: 0 <= i < |NonZero(es)| ==> IsElementUnit(NonZero(es)[i].unit)
  {
  }

  /** The canonical spelling of what is left ends in an element letter
      or is `P` alone. */
  lemma DurationEnd(date: seq<Element>, time: seq<Element>)
    requires DurationOrdered(date, time)
    ensures var dz := ElementsString(NonZero(date)); var tz := ElementsString(NonZero(time));
      var p := "P" + dz + (if NonZero(time) == [] then "" else "T" + tz);
      p[0] == 'P' && p[|p| - 1] != 'T'
  {
    var dz := ElementsString(NonZero(date));
    var tz := ElementsString(NonZero(time));
    NonZeroUnits(date);
    NonZeroUnits(time);
    ElementsStringNoT(NonZero(date));
    ElementsStringNoT(NonZero(time));
    if NonZero(time) != [] {
      assert ("P" + dz + ("T" + tz))[|"P" + dz + ("T" + tz)| - 1] == tz[|tz| - 1];
    } else if NonZero(date) != [] {
      assert ("P" + dz + "")[|"P" + dz + ""| - 1] == dz[|dz| - 1];
    } else {
      assert dz == "";
    }
  }

  /** `duration_zero_remove` on a duration: the zero-valued elements go,
      and so does the `T` when no time element is left; when every element
      is zero only the `P` remains (not the empty string, as the
      function's documentation says). */
  lemma ZeroRemoveDuration(date: seq<Element>, time: seq<Element>)
    requires DurationOrdered(date, time)
    ensures ZeroRemove(DurationString(date, time)) ==
              "P" + ElementsString(NonZero(date)) + (if NonZero(time) == [] then "" else "T" + ElementsString(NonZero(time)))
  {
    var dz := ElementsString(NonZero(date));
    var tz := ElementsString(NonZero(time));
    var p := "P" + dz + (if NonZero(time) == [] then "" else "T" + tz);
    ZeroSubDuration(date, time);
    DurationEnd(date, time);
    StripNoT(p);
    if time != [] && NonZero(time) == [] {
      assert tz == "";
      assert "P" + dz + ("T" + tz) == p + "T";
    }
  }

  // ---------------------------------------------------------------------
  // Resolution of an interval: `re.search` of
  // `(T?)[^PT0-9]*0*([1-9][0-9]*)([YMWDHMS])$`

  /** `[^PT0-9]`. */
  predicate IsPlain(c: char) {
    c != 'P' && c != 'T' && !IsDigit(c)
  }

  /** The longest prefix of `[^PT0-9]` characters. */
  function PlainRun(s: string): (a: string)
    ensures |a| <= |s| && a == s[..|a|]
    ensures forall i :: 0 <= i < |a| ==> IsPlain(a[i])
    ensures |a| < |s| ==> !IsPlain(s[|a|])
  {
    if s != [] && IsPlain(s[0]) then [s[0]] + PlainRun(s[1..]) else []
  }

  /** The groups of a match of the text `x` between its start and the
      final letter `u`. `T?` is greedy and nothing after it may be a `T`;
      the plain run is greedy and nothing after it may be plain; what is
      left must be `0*[1-9][0-9]*`. */
  function MatchGroups(x: string, u: char): Option<(string, nat, char)> {
    var tm := if |x| > 0 && x[0] == 'T' then "T" else "";
    var y := x[|tm|..];
    var digits := y[|PlainRun(y)|..];
    if IsElementUnit(u) && IsMagnitude(digits) then Some((tm, ParseNat(digits), u)) else None
  }

  /** A match starting at `p`, which must reach the end of the string. */
  function ResolutionAt(s: string, p: nat): Option<(string, nat, char)>
    requires p < |s|
  {
    MatchGroups(s[p..|s| - 1], s[|s| - 1])
  }

  /** `re.search`: the leftmost position where a match starts. */
  function SearchResolution(s: string, p: nat): Option<(string, nat, char)>
    requires p <= |s|
    decreases |s| - p
  {
    if p == |s| then None
    else if ResolutionAt(s, p).Some? then ResolutionAt(s, p)
    else SearchResolution(s, p + 1)
  }

  /** What `interval_resolution_get` builds from the groups: the
      magnitude of a time element, 1 for a date element, and `""` for a
      pair the table lacks or no match. */
  function ResolutionText(m: Option<(string, nat, char)>): string {
    match m
    case None => ""
    case Some((tm, n, u)) =>
      if (tm, u) in UnitDurationToDatetime then ResolutionString(tm, if tm != "" then n else 1, u) else ""
  }

  /** `interval_resolution_get`. */
  function IntervalResolution(interval: string): string {
    var s := ZeroRemove(interval);
    ResolutionText(SearchResolution(s, 0))
  }

  /** No match can span a `P`. */
  lemma MatchGroupsP(x: string, u: char, j: nat)
    requires j < |x| && x[j] == 'P'
    ensures MatchGroups(x, u) == None
  {
    var tm := if |x| > 0 && x[0] == 'T' then "T" else "";
    var y := x[|tm|..];
    var a := PlainRun(y);
    assert j >= |tm|;
    assert y[j - |tm|] == 'P';
    assert j - |tm| >= |a|;
    var digits := y[|a|..];
    assert digits[j - |tm| - |a|] == 'P';
  }

  /** No match starts before a `P` that precedes the last letter. */
  lemma ResolutionAtBeforeP(s: string, p: nat, j: nat)
    requires p <= j < |s| - 1 && s[j] == 'P'
    ensures ResolutionAt(s, p) == None
  {
    assert s[p..|s| - 1][j - p] == 'P';
    MatchGroupsP(s[p..|s| - 1], s[|s| - 1], j - p);
  }

  lemma {:induction false} SearchSkips(s: string, p: nat, q: nat)
    requires p <= q <= |s|
    requires forall j :: p <= j < q ==> ResolutionAt(s, j) == None
    ensures SearchResolution(s, p) == SearchResolution(s, q)
    decreases q - p
  {
    if p < q {
      SearchSkips(s, p + 1, q);
    }
  }

  /** The groups of a one-element duration after its `P`. */
  lemma MatchGroupsElement(tm: string, n: nat, u: char)
    requires tm == "" || tm == "T"
    requires n >= 1 && IsElementUnit(u)
    ensures MatchGroups(tm + NatToString(n), u) == Some((tm, n, u))
  {
    var d := NatToString(n);
    NatToStringMagnitude("", n);
    assert "" + d == d;
    assert d[0] != 'T' && !IsPlain(d[0]);
    MatchGroupsDigits(tm, d, u);
  }

  /** A time mark followed by digits: the groups are the mark and the
      digits. */
  lemma MatchGroupsDigits(tm: string, d: string, u: char)
    requires tm == "" || tm == "T"
    requires |d| >= 1 && d[0] != 'T' && !IsPlain(d[0]) && IsMagnitude(d) && IsElementUnit(u)
    ensures MatchGroups(tm + d, u) == Some((tm, ParseNat(d), u))
  {
    var x := tm + d;
    assert x[0] == if tm == "T" then 'T' else d[0];
    assert x[|tm|..] == d;
    assert PlainRun(d) == [];
  }

  /** Whatever comes before it, a one-element duration at the end is what
      the search finds. */
  lemma SearchElement(pre: string, tm: string, n: nat, u: char)
    requires tm == "" || tm == "T"
    requires n >= 1 && IsElementUnit(u)
    ensures SearchResolution(pre + ResolutionString(tm, n, u), 0) == Some((tm, n, u))
  {
    var s := pre + ResolutionString(tm, n, u);
    assert s[|pre|] == 'P';
    assert |pre| < |s| - 1;
    forall j | 0 <= j < |pre| + 1
      ensures ResolutionAt(s, j) == None
    {
      ResolutionAtBeforeP(s, j, |pre|);
    }
    SearchSkips(s, 0, |pre| + 1);
    MiddleSlice(pre + "P", tm + NatToString(n), [u]);
    Regroup(pre, "P", tm, NatToString(n), [u]);
    MatchGroupsElement(tm, n, u);
    assert ResolutionAt(s, |pre| + 1) == Some((tm, n, u));
  }

  lemma Regroup(p: string, q: string, r: string, t: string, v: string)
    ensures p + (q + r + t + v) == (p + q) + (r + t) + v
  {
  }

  lemma MiddleSlice(a: string, b: string, c: string)
    ensures (a + b + c)[|a|..|a + b + c| - |c|] == b
  {
  }

  /** Every `0` directly follows a digit, so no zero element can match. */
  predicate ZerosAfterDigits(s: string) {
    forall j :: 0 <= j < |s| && s[j] == '0' ==> j > 0 && IsDigit(s[j - 1])
  }

  lemma ZerosAfterDigitsConcat(a: string, b: string)
    requires ZerosAfterDigits(a) && ZerosAfterDigits(b)
    ensures ZerosAfterDigits(a + b)
  {
    forall j | 0 <= j < |a + b| && (a + b)[j] == '0'
      ensures j > 0 && IsDigit((a + b)[j - 1])
    {
      if j >= |a| {
        assert b[j - |a|] == '0';
        assert (a + b)[j - 1] == b[j - |a| - 1];
      }
    }
  }

  lemma NatToStringZeros(n: nat)
    requires n >= 1
    ensures ZerosAfterDigits(NatToString(n))
  {
    var d := NatToString(n);
    forall j | 0 <= j < |d| && d[j] == '0'
      ensures j > 0 && IsDigit(d[j - 1])
    {
    }
  }

  /** A string whose zeros all follow digits, which neither starts nor
      ends with `T`, is left alone by `duration_zero_remove`. */
  lemma ZeroRemoveNone(s: string)
    requires ZerosAfterDigits(s) && |s| > 0 && s[0] != 'T' && s[|s| - 1] != 'T'
    ensures ZeroRemove(s) == s
  {
    assert NoZeroElementIn(s, 0, |s|);
    ZeroSubKeeps(s, 0, |s|);
    assert s[0..|s|] == s;
    assert ZeroSub(s, |s|) == "";
    assert s + "" == s;
    StripNoT(s);
  }

  lemma MixedZeros()
    ensures ZerosAfterDigits("PT1H30M")
  {
    var s := "PT1H30M";
    forall j | 0 <= j < |s| && s[j] == '0'
      ensures j > 0 && IsDigit(s[j - 1])
    {
      assert j == 5;
    }
  }

  lemma MixedGroupsT()
    ensures MatchGroups("T1H30", 'M') == None
  {
    assert "T1H30"[1..] == "1H30";
    assert PlainRun("1H30") == [] && !IsDigit("1H30"[1]);
  }

  lemma MixedGroupsOne()
    ensures MatchGroups("1H30", 'M') == None
  {
    assert PlainRun("1H30") == [] && !IsDigit("1H30"[1]);
  }

  lemma MixedGroupsH()
    ensures MatchGroups("H30", 'M') == Some(("", 30, 'M'))
  {
    assert PlainRun("H30") == "H" && "H30"[1..] == "30";
    assert ParseNat("30") == 30;
  }

  /** A position where no match starts passes the search on. */
  lemma SearchOn(s: string, p: nat)
    requires p < |s| && ResolutionAt(s, p).None?
    ensures SearchResolution(s, p) == SearchResolution(s, p + 1)
  {
  }

  lemma MixedAtT()
    ensures ResolutionAt("PT1H30M", 1) == None
  {
    var x := "PT1H30M"[1..6];
    assert |x| == 5 && x[0] == 'T' && x[1] == '1' && x[2] == 'H' && x[3] == '3' && x[4] == '0';
    assert x == "T1H30";
    MixedGroupsT();
  }

  lemma MixedAtOne()
    ensures ResolutionAt("PT1H30M", 2) == None
  {
    var x := "PT1H30M"[2..6];
    assert |x| == 4 && x[0] == '1' && x[1] == 'H' && x[2] == '3' && x[3] == '0';
    assert x == "1H30";
    MixedGroupsOne();
  }

  lemma MixedAtH()
    ensures ResolutionAt("PT1H30M", 3) == Some(("", 30, 'M'))
  {
    var x := "PT1H30M"[3..6];
    assert |x| == 3 && x[0] == 'H' && x[1] == '3' && x[2] == '0';
    assert x == "H30";
    MixedGroupsH();
  }

  /** The search in `PT1H30M` skips the positions up to the `H` and
      matches `30M` without the `T`. */
  lemma MixedSearch()
    ensures SearchResolution("PT1H30M", 0) == Some(("", 30, 'M'))
  {
    var s := "PT1H30M";
    ResolutionAtBeforeP(s, 0, 0);
    SearchOn(s, 0);
    MixedAtT();
    SearchOn(s, 1);
    MixedAtOne();
    SearchOn(s, 2);
    MixedAtH();
  }

  /** The resolution of `PT1H30M` is `P1M`, a month: the search finds the
      last element and, since its `T` lies further left, reads `M` as a
      date letter. */
  lemma IntervalResolutionMixed()
    ensures IntervalResolution("PT1H30M") == "P1M"
  {
    MixedZeros();
    ZeroRemoveNone("PT1H30M");
    MixedSearch();
    assert NatToString(1) == "1";
  }

  // ---------------------------------------------------------------------
  // Parts: `^((R[^P/]*)/)?(P[^/]*)$`

  /** The longest prefix of `[^P/]` characters. */
  function RepeatRun(s: string): (r: string)
    ensures |r| <= |s| && r == s[..|r|]
    ensures forall i :: 0 <= i < |r| ==> r[i] != 'P' && r[i] != '/'
    ensures |r| < |s| ==> s[|r|] == 'P' || s[|r|] == '/'
  {
    if s != [] && s[0] != 'P' && s[0] != '/' then [s[0]] + RepeatRun(s[1..]) else []
  }

  /** `P[^/]*`. */
  predicate IsDurationPart(d: string) {
    |d| >= 1 && d[0] == 'P' && forall i :: 0 <= i < |d| ==> d[i] != '/'
  }

  /** `R[^P/]*`. */
  predicate IsRepeatPart(r: string) {
    |r| >= 1 && r[0] == 'R' && forall i :: 1 <= i < |r| ==> r[i] != 'P' && r[i] != '/'
  }

  /** `interval_split`: the repetition part (None when absent, as
      Python's unmatched group) and the duration part. If the optional
      group matches, the duration must follow it, because skipping the
      group would need the string to start with `P`. */
  function IntervalSplit(s: string): Option<(Option<string>, string)> {
    if |s| > 0 && s[0] == 'R' then
      var k := 1 + |RepeatRun(s[1..])|;
      if k < |s| && s[k] == '/' && IsDurationPart(s[k + 1..]) then Some((Some(s[..k]), s[k + 1..])) else None
    else if IsDurationPart(s) then Some((None, s))
    else None
  }

  function JoinInterval(rep: Option<string>, d: string): string {
    (if rep.Some? then rep.value + "/" else "") + d
  }

  lemma {:induction false} RepeatRunOf(r: string, rest: string)
    requires forall i :: 0 <= i < |r| ==> r[i] != 'P' && r[i] != '/'
    requires rest != [] && rest[0] == '/'
    ensures RepeatRun(r + rest) == r
    decreases |r|
  {
    if r != [] {
      assert (r + rest)[1..] == r[1..] + rest;
      RepeatRunOf(r[1..], rest);
    }
  }

  /** The split succeeds exactly on a well-formed repetition part and
      `/` followed by a duration part, or a duration part alone, and gives
      back those parts. */
  lemma IntervalSplitIff(s: string, rep: Option<string>, d: string)
    ensures IntervalSplit(s) == Some((rep, d)) <==>
              (rep.None? || IsRepeatPart(rep.value)) && IsDurationPart(d) && JoinInterval(rep, d) == s
  {
    if IntervalSplit(s) == Some((rep, d)) {
      if rep.Some? {
        var k := 1 + |RepeatRun(s[1..])|;
        assert rep.value == s[..k];
        assert forall i :: 1 <= i < k ==> s[..k][i] == RepeatRun(s[1..])[i - 1];
        assert s == s[..k] + "/" + s[k + 1..];
      }
    }
    if (rep.None? || IsRepeatPart(rep.value)) && IsDurationPart(d) && JoinInterval(rep, d) == s {
      if rep.Some? {
        var r := rep.value;
        assert s == r + ("/" + d);
        assert s[1..] == r[1..] + ("/" + d);
        RepeatRunOf(r[1..], "/" + d);
        assert s[..|r|] == r && s[|r|] == '/' && s[|r| + 1..] == d;
      } else {
        assert s == d;
      }
    }
  }

  // ---------------------------------------------------------------------
  // interval_process

  /** The dict `interval_process` returns when it accepts the interval. */
  datatype IntervalInfo = IntervalInfo(reps: Option<nat>, durationPart: string, resolution: string)

  /** `interval_process`: None stands for the empty dict it returns for an
      interval it does not support. */
  function IntervalProcess(intervalIn: string): Option<IntervalInfo> {
    var interval := ZeroRemove(intervalIn);
    var resolution := IntervalResolution(interval);
    var parts := IntervalSplit(interval);
    if resolution in ResolutionsOk && parts.Some? then Some(IntervalInfo(IntervalReps(interval), parts.value.1, resolution))
    else None
  }

  /** The repetition prefix of a canonical interval: none, `R/` for
      infinitely many, or `Rn/`. */
  function RepeatPrefix(reps: Option<nat>): string {
    match reps
    case None => ""
    case Some(n) => if n == RepsInfinite then "R/" else "R" + NatToString(n) + "/"
  }

  lemma ResolutionsOkPartsValid()
    ensures forall i :: 0 <= i < |ResolutionsOkParts| ==>
              var (tm, n, u) := ResolutionsOkParts[i];
              && (tm == "" || tm == "T") && n >= 1 && IsElementUnit(u) && (tm, u) in UnitDurationToDatetime
              && (tm == "" ==> n == 1)
  {
  }

  lemma RepeatPrefixShape(reps: Option<nat>)
    ensures ZerosAfterDigits(RepeatPrefix(reps))
    ensures reps.None? ==> RepeatPrefix(reps) == ""
    ensures reps.Some? ==> RepeatPrefix(reps) != [] && RepeatPrefix(reps)[0] == 'R'
    ensures reps.Some? ==> exists r :: IsRepeatPart(r) && RepeatPrefix(reps) == r + "/"
  {
    match reps
    case None =>
    case Some(n) =>
      if n == RepsInfinite {
        assert IsRepeatPart("R") && "R/" == "R" + "/";
      } else {
        RepeatPrefixCount(n);
      }
  }

  lemma RepeatPrefixCount(n: nat)
    requires n >= 1
    ensures ZerosAfterDigits("R" + NatToString(n) + "/")
    ensures IsRepeatPart("R" + NatToString(n))
  {
    var d := NatToString(n);
    NatToStringZeros(n);
    ZerosAfterDigitsConcat("R", d);
    ZerosAfterDigitsConcat("R" + d, "/");
    forall i | 1 <= i < |"R" + d|
      ensures ("R" + d)[i] != 'P' && ("R" + d)[i] != '/'
    {
      assert ("R" + d)[i] == d[i - 1];
    }
  }

  lemma IntervalRepsPrefix(reps: Option<nat>, rest: string)
    requires rest != [] && rest[0] == 'P'
    ensures IntervalReps(RepeatPrefix(reps) + rest) == reps
  {
    match reps
    case None =>
      assert RepeatPrefix(reps) + rest == rest;
    case Some(n) =>
      if n == RepsInfinite {
        IntervalRepsInfinite(rest);
      } else {
        assert RepeatPrefix(reps) + rest == "R" + "" + NatToString(n) + "/" + rest;
        IntervalRepsCount("", n, rest);
      }
  }

  lemma ElementShape(tm: string, n: nat, u: char)
    requires tm == "" || tm == "T"
    requires n >= 1 && IsElementUnit(u)
    ensures ZerosAfterDigits(ResolutionString(tm, n, u))
    ensures IsDurationPart(ResolutionString(tm, n, u))
  {
    var d := NatToString(n);
    var res := ResolutionString(tm, n, u);
    NatToStringZeros(n);
    ZerosAfterDigitsConcat("P" + tm, d);
    ZerosAfterDigitsConcat("P" + tm + d, [u]);
    forall k | 0 <= k < |res|
      ensures res[k] != '/'
    {
      if 1 + |tm| <= k < 1 + |tm| + |d| {
        assert res[k] == d[k - 1 - |tm|];
      }
    }
  }

  /** `duration_zero_remove` leaves a canonical interval alone, and the
      split gives back its parts. */
  lemma CanonicalParts(reps: Option<nat>, d: string)
    requires ZerosAfterDigits(d) && IsDurationPart(d) && d[|d| - 1] != 'T'
    ensures ZeroRemove(RepeatPrefix(reps) + d) == RepeatPrefix(reps) + d
    ensures IntervalSplit(RepeatPrefix(reps) + d).Some? && IntervalSplit(RepeatPrefix(reps) + d).value.1 == d
  {
    var pre := RepeatPrefix(reps);
    var s := pre + d;
    RepeatPrefixShape(reps);
    ZerosAfterDigitsConcat(pre, d);
    assert s[0] == if reps.None? then 'P' else 'R';
    assert s[|s| - 1] == d[|d| - 1];
    ZeroRemoveNone(s);
    if reps.Some? {
      var r :| IsRepeatPart(r) && pre == r + "/";
      IntervalSplitIff(s, Some(r), d);
    } else {
      IntervalSplitIff(s, None, d);
    }
  }

  /** A canonical one-element interval, with any repetition part, is
      accepted exactly when the resolution read from its element is
      supported, and then with its repetition count, its duration and
      that resolution. */
  lemma IntervalProcessElement(reps: Option<nat>, tm: string, n: nat, u: char)
    requires tm == "" || tm == "T"
    requires n >= 1 && IsElementUnit(u)
    ensures var d := ResolutionString(tm, n, u);
            var res := ResolutionText(Some((tm, n, u)));
            IntervalProcess(RepeatPrefix(reps) + d) ==
              if res in ResolutionsOk then Some(IntervalInfo(reps, d, res)) else None
  {
    var d := ResolutionString(tm, n, u);
    var s := RepeatPrefix(reps) + d;
    ElementShape(tm, n, u);
    CanonicalParts(reps, d);
    SearchElement(RepeatPrefix(reps), tm, n, u);
    IntervalRepsPrefix(reps, d);
    IntervalProcessParts(s, reps, d, ResolutionText(Some((tm, n, u))));
  }

  /** `interval_process` of an interval the zero removal leaves alone,
      read from its parts. */
  lemma IntervalProcessParts(s: string, reps: Option<nat>, d: string, res: string)
    requires ZeroRemove(s) == s && ResolutionText(SearchResolution(s, 0)) == res
    requires IntervalSplit(s).Some? && IntervalSplit(s).value.1 == d && IntervalReps(s) == reps
    ensures IntervalProcess(s) == if res in ResolutionsOk then Some(IntervalInfo(reps, d, res)) else None
  {
  }

  /** Every supported resolution, with any repetition part in front (such
      as `R5/PT1H`, `R/P1D`, `P1W`), is accepted with its repetition
      count, its duration, and the duration as its resolution. */
  lemma IntervalProcessSupported(reps: Option<nat>, i: nat)
    requires i < |ResolutionsOk|
    ensures IntervalProcess(RepeatPrefix(reps) + ResolutionsOk[i]) ==
              Some(IntervalInfo(reps, ResolutionsOk[i], ResolutionsOk[i]))
  {
    ResolutionsOkSpelled();
    ResolutionsOkPartsValid();
    var (tm, n, u) := ResolutionsOkParts[i];
    assert ResolutionText(Some((tm, n, u))) == ResolutionsOk[i];
    IntervalProcessElement(reps, tm, n, u);
  }

  lemma ResolutionStringInjective(tm1: string, n1: nat, u1: char, tm2: string, n2: nat, u2: char)
    requires tm1 == "" || tm1 == "T"
    requires tm2 == "" || tm2 == "T"
    requires ResolutionString(tm1, n1, u1) == ResolutionString(tm2, n2, u2)
    ensures tm1 == tm2 && n1 == n2 && u1 == u2
  {
    var r := ResolutionString(tm1, n1, u1);
    var d1, d2 := NatToString(n1), NatToString(n2);
    assert r[1] == if tm1 == "T" then 'T' else d1[0];
    assert r[1] == if tm2 == "T" then 'T' else d2[0];
    assert tm1 == tm2;
    MiddleSlice("P" + tm1, d1, [u1]);
    MiddleSlice("P" + tm2, d2, [u2]);
    assert d1 == d2;
    NatToStringInjective(n1, n2);
  }

  /** A one-element duration is a supported resolution exactly when its
      triple is in the table. */
  lemma ResolutionSupportedIff(tm: string, n: nat, u: char)
    requires tm == "" || tm == "T"
    ensures ResolutionString(tm, n, u) in ResolutionsOk <==> (tm, n, u) in ResolutionsOkParts
  {
    ResolutionsOkSpelled();
    ResolutionsOkPartsValid();
    if ResolutionString(tm, n, u) in ResolutionsOk {
      var i :| 0 <= i < |ResolutionsOk| && ResolutionsOk[i] == ResolutionString(tm, n, u);
      var (tm', n', u') := ResolutionsOkParts[i];
      ResolutionStringInjective(tm, n, u, tm', n', u');
    }
    if (tm, n, u) in ResolutionsOkParts {
      var i :| 0 <= i < |ResolutionsOkParts| && ResolutionsOkParts[i] == (tm, n, u);
      assert ResolutionsOk[i] == ResolutionString(tm, n, u);
    }
  }

  /** An interval whose resolution is not supported is refused: `PT15M`
      does not fit the 10-minute cycle. */
  lemma IntervalProcessQuarterHour()
    ensures IntervalProcess("PT15M") == None
  {
    assert NatToString(15) == "15";
    IntervalProcessElement(None, "T", 15, 'M');
    ResolutionSupportedIff("T", 15, 'M');
    assert RepeatPrefix(None) + ResolutionString("T", 15, 'M') == "PT15M";
  }

  /** A day's worth of hours is not read as a day, and is refused. */
  lemma IntervalProcessDayOfHours()
    ensures IntervalProcess("PT24H") == None
  {
    assert NatToString(24) == "24";
    IntervalProcessElement(None, "T", 24, 'H');
    ResolutionSupportedIff("T", 24, 'H');
    assert RepeatPrefix(None) + ResolutionString("T", 24, 'H') == "PT24H";
  }

  lemma MonthSupported()
    ensures "P1M" in ResolutionsOk
  {
    assert ResolutionsOk[1] == "P1M";
  }

  /** The exact outcome for the mixed duration `PT1H30M`: accepted, with the
      month as its resolution. */
  lemma IntervalProcessMixed()
    ensures IntervalProcess("PT1H30M") == Some(IntervalInfo(None, "PT1H30M", "P1M"))
  {
    var s := "PT1H30M";
    MixedZeros();
    ZeroRemoveNone(s);
    IntervalResolutionMixed();
    IntervalSplitIff(s, None, s);
    IntervalRepsAbsent(s);
    MonthSupported();
    IntervalProcessParts(s, None, s, "P1M");
  }
}
