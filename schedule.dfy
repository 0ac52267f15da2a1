/** The schedule-tag matchers that `date_time_process` builds from the run
    time, in both revisions of the scheduler, and what it means for a tag
    value to match them.

    A format is kept as groups (the parts between `&`) of alternatives (the
    parts between `|`), each alternative a strftime template. No strftime
    field renders `&` or `|`, so splitting the template first is the same as
    splitting its output. Each alternative's output then goes through the
    `0~` substitution and regexp compilation (`CompileAlt`), and the group
    becomes one regexp `(^|[, ])(alt1|alt2|...)([, ]|$)`. */
module Schedule {
  import opened Text

  /** The two revisions of the scheduler: `Rev1` is the perform program,
      `Rev2` the later find program, which also accepts `_` as a wildcard
      and computes the end of the 10-minute cycle. */
  datatype Revision = Rev1 | Rev2

  /** The fields of a run time that the strftime formats read; `weekday` is
      the ISO weekday of `%u` (Monday is 1). */
  datatype RunTime = RunTime(year: nat, month: nat, day: nat, hour: nat, minute: nat, weekday: nat)
  {
    predicate Valid() {
      1 <= year && 1 <= month <= 12 && 1 <= day <= 31 && hour < 24 && minute < 60 && 1 <= weekday <= 7
    }
  }

  /** The handlers' normalisation of the current time: down to the preceding
      :00, :10, :20, :30, :40 or :50 (seconds and microseconds dropped). */
  function FloorTen(t: RunTime): (r: RunTime)
    requires t.Valid()
    ensures r.Valid() && r.minute % 10 == 0
    ensures r.minute <= t.minute < r.minute + 10
    ensures r.(minute := t.minute) == t
  {
    t.(minute := t.minute / 10 * 10)
  }

  // ---------------------------------------------------------------------
  // Regexps over tag values

  /** One position of a compiled alternative: a literal character or `\d`. */
  datatype PatChar = Lit(c: char) | AnyDigit

  type Pattern = seq<PatChar>

  predicate CharMatches(pc: PatChar, c: char) {
    match pc
    case Lit(d) => c == d
    case AnyDigit => IsDigit(c)
  }

  /** A whole-string match of one alternative. */
  predicate Matches(p: Pattern, w: string) {
    |p| == |w| && forall i :: 0 <= i < |p| ==> CharMatches(p[i], w[i])
  }

  function Lits(s: string): (p: Pattern)
    ensures |p| == |s| && forall i :: 0 <= i < |s| ==> p[i] == Lit(s[i])
  {
    if s == [] then [] else [Lit(s[0])] + Lits(s[1..])
  }

  /** The regexp `(^|[, ])(alts[0]|alts[1]|...)([, ]|$)`. */
  datatype Regexp = Delimited(alts: seq<Pattern>)

  /** `SCHED_DELIMS`: comma or space. */
  const Delims: set<char> := {',', ' '}

  predicate AnyAltMatches(alts: seq<Pattern>, w: string)
    decreases |alts|
  {
    |alts| > 0 && (Matches(alts[0], w) || AnyAltMatches(alts[1..], w))
  }

  /** `v[p..q]` starts at the beginning or after a delimiter and ends at
      the end or before a delimiter. */
  predicate Bounded(v: string, p: int, q: int) {
    0 <= p <= q <= |v| && (p == 0 || v[p - 1] in Delims) && (q == |v| || v[q] in Delims)
  }

  /** What `regexp.search(v)` finds: some alternative matching a stretch of
      `v` that is bounded on both sides. */
  ghost predicate RegexpSearch(r: Regexp, v: string) {
    exists p, q :: Bounded(v, p, q) && AnyAltMatches(r.alts, v[p..q])
  }

  /** The schedule parts of a tag value. */
  function Tokens(v: string): seq<string> {
    Split(v, Delims)
  }

  /** The token-wise reading of a search: some part of the value, split at
      commas and spaces, is one of the alternatives. */
  predicate Search(r: Regexp, v: string) {
    exists k :: 0 <= k < |Tokens(v)| && AnyAltMatches(r.alts, Tokens(v)[k])
  }

  /** The for-else loop of `rsrc_process`: every regexp of the list finds a
      match (vacuously so for the empty list of an enabling tag). */
  predicate AllSearch(rs: seq<Regexp>, v: string) {
    forall i :: 0 <= i < |rs| ==> Search(rs[i], v)
  }

  predicate PatDelimFree(p: Pattern) {
    forall i :: 0 <= i < |p| ==> p[i].Lit? ==> p[i].c !in Delims
  }

  predicate AltsDelimFree(alts: seq<Pattern>) {
    forall k :: 0 <= k < |alts| ==> PatDelimFree(alts[k])
  }

  lemma {:induction false} AnyAltMatchesIff(alts: seq<Pattern>, w: string)
    ensures AnyAltMatches(alts, w) <==> exists k :: 0 <= k < |alts| && Matches(alts[k], w)
    decreases |alts|
  {
    if |alts| > 0 {
      AnyAltMatchesIff(alts[1..], w);
      if exists k :: 0 <= k < |alts| && Matches(alts[k], w) {
        var k :| 0 <= k < |alts| && Matches(alts[k], w);
        if k > 0 {
          assert alts[1..][k - 1] == alts[k];
        }
      }
      if exists k :: 0 <= k < |alts[1..]| && Matches(alts[1..][k], w) {
        var k :| 0 <= k < |alts[1..]| && Matches(alts[1..][k], w);
        assert alts[k + 1] == alts[1..][k];
      }
    }
  }

  lemma AltMatchDelimFree(alts: seq<Pattern>, w: string)
    requires AltsDelimFree(alts) && AnyAltMatches(alts, w)
    ensures NoneIn(w, Delims)
  {
    AnyAltMatchesIff(alts, w);
    var k :| 0 <= k < |alts| && Matches(alts[k], w);
    forall i | 0 <= i < |w|
      ensures w[i] !in Delims
    {
      assert CharMatches(alts[k][i], w[i]);
    }
  }

  /** The literal regexp meaning and the token reading agree, because no
      alternative can match a comma or a space. */
  lemma SearchIsRegexpSearch(r: Regexp, v: string)
    requires AltsDelimFree(r.alts)
    ensures Search(r, v) <==> RegexpSearch(r, v)
  {
    if Search(r, v) {
      var k :| 0 <= k < |Tokens(v)| && AnyAltMatches(r.alts, Tokens(v)[k]);
      var p, q := SplitTokenAt(v, Delims, k);
      assert Bounded(v, p, q) && AnyAltMatches(r.alts, v[p..q]);
    }
    if RegexpSearch(r, v) {
      var p, q :| Bounded(v, p, q) && AnyAltMatches(r.alts, v[p..q]);
      AltMatchDelimFree(r.alts, v[p..q]);
      assert TokenAt(v, Delims, p, q);
      TokenAtInSplit(v, Delims, p, q);
      TokenInSplitIff(v, Delims, v[p..q]);
      var k :| 0 <= k < |Tokens(v)| && Tokens(v)[k] == v[p..q];
    }
  }

  // ---------------------------------------------------------------------
  // Formats

  /** One piece of a strftime template: literal text or a field. The minute
      always appears as `%M~`, the 10-minute normalisation marker. */
  datatype FmtItem = Str(s: string) | Year | Month | Day | Hour | Weekday | MinuteMarked

  type Template = seq<FmtItem>

  /** strftime's output for one field (`%Y` has no padding, `%u` is one digit). */
  function StrftimeItem(it: FmtItem, t: RunTime): string
    requires t.Valid()
  {
    match it
    case Str(s) => s
    case Year => NatToString(t.year)
    case Month => Pad2(t.month)
    case Day => Pad2(t.day)
    case Hour => Pad2(t.hour)
    case Weekday => [DigitChar(t.weekday)]
    case MinuteMarked => Pad2(t.minute) + "~"
  }

  function Strftime(tpl: Template, t: RunTime): string
    requires t.Valid()
    decreases |tpl|
  {
    if tpl == [] then "" else StrftimeItem(tpl[0], t) + Strftime(tpl[1..], t)
  }

  /** `re.sub("0~", r"\d", s)` followed by regexp compilation of the result:
      `0~` becomes a digit class, the escape `\*` a literal star, and every
      other character stands for itself. */
  function CompileAlt(s: string): Pattern
    decreases |s|
  {
    if s == [] then []
    else if |s| >= 2 && s[0] == '0' && s[1] == '~' then [AnyDigit] + CompileAlt(s[2..])
    else if |s| >= 2 && s[0] == '\\' && s[1] == '*' then [Lit('*')] + CompileAlt(s[2..])
    else [Lit(s[0])] + CompileAlt(s[1..])
  }

  function CompileGroup(alts: seq<Template>, t: RunTime): (r: seq<Pattern>)
    requires t.Valid()
    ensures |r| == |alts|
    decreases |alts|
  {
    if alts == [] then [] else [CompileAlt(Strftime(alts[0], t))] + CompileGroup(alts[1..], t)
  }

  function CompileFormat(groups: seq<seq<Template>>, t: RunTime): (r: seq<Regexp>)
    requires t.Valid()
    ensures |r| == |groups|
    decreases |groups|
  {
    if groups == [] then []
    else [Delimited(CompileGroup(groups[0], t))] + CompileFormat(groups[1..], t)
  }

  const DayTime: Template := [Str("dTH:M="), Day, Str("T"), Hour, Str(":"), MinuteMarked]
  const WeekdayTime: Template := [Str("uTH:M="), Weekday, Str("T"), Hour, Str(":"), MinuteMarked]
  const HourMinute: Template := [Str("H:M="), Hour, Str(":"), MinuteMarked]
  const OnceTime: Template := [Year, Str("-"), Month, Str("-"), Day, Str("T"), Hour, Str(":"), MinuteMarked]

  function DayGroup(rev: Revision): seq<Template> {
    if rev == Rev1 then [DayTime, WeekdayTime, [Str("d="), Day], [Str("d=\\*")], [Str("u="), Weekday]]
    else [DayTime, WeekdayTime, [Str("d="), Day], [Str("d=\\*")], [Str("d=_")], [Str("u="), Weekday]]
  }

  function HourGroup(rev: Revision): seq<Template> {
    if rev == Rev1 then [DayTime, WeekdayTime, HourMinute, [Str("H="), Hour], [Str("H=\\*")]]
    else [DayTime, WeekdayTime, HourMinute, [Str("H="), Hour], [Str("H=\\*")], [Str("H=_")]]
  }

  const MinuteGroup: seq<Template> := [DayTime, WeekdayTime, HourMinute, [Str("M="), MinuteMarked]]

  /** `SCHED_TAG_STRFTIME_FMTS["periodic"]`: day, hour and minute rules. */
  function PeriodicFormat(rev: Revision): seq<seq<Template>> {
    [DayGroup(rev), HourGroup(rev), MinuteGroup]
  }

  /** `SCHED_TAG_STRFTIME_FMTS["once"]`. */
  const OnceFormat: seq<seq<Template>> := [[OnceTime]]

  /** `TRACK_TAG_STRFTIME_FMT`, `%Y-%m-%dT%H:%MZ`. */
  function TrackString(t: RunTime): string
    requires t.Valid()
  {
    NatToString(t.year) + "-" + Pad2(t.month) + "-" + Pad2(t.day) + "T" + Pad2(t.hour) + ":" + Pad2(t.minute) + "Z"
  }

  /** The frequency names, which are also the schedule tag key suffixes. */
  const Once := "once"
  const Periodic := "periodic"

  function SchedRegexpLists(rev: Revision, t: RunTime): (m: map<string, seq<Regexp>>)
    requires t.Valid()
    ensures m.Keys == {Once, Periodic}
  {
    var once := CompileFormat(OnceFormat, t);
    var periodic := CompileFormat(PeriodicFormat(rev), t);
    map[Once := once, Periodic := periodic]
  }

  /** Python's `math.trunc` on a timestamp: toward zero. */
  function TruncTowardZero(x: real): (n: int)
    ensures 0.0 <= x ==> n as real <= x < n as real + 1.0
    ensures x < 0.0 ==> n as real - 1.0 < x <= n as real
    ensures -1.0 < x < 1.0 ==> n == 0
  {
    if x >= 0.0 then x.Floor else -((-x).Floor)
  }

  /** `end_epoch_str`: the end of the 10-minute cycle, in milliseconds since
      the epoch, as a decimal string. */
  function EndEpochString(timestamp: real): (s: string)
    ensures IsIntString(s) && ParseInt(s) == (TruncTowardZero(timestamp) + 600) * 1000
  {
    IntToStringRoundTrip((TruncTowardZero(timestamp) + 600) * 1000);
    IntToString((TruncTowardZero(timestamp) + 600) * 1000)
  }

  /** The run time normalised by the handler has whole seconds, so the end
      of its cycle is exactly 600000 milliseconds after it. */
  lemma EndEpochOfWholeSeconds(seconds: int)
    ensures ParseInt(EndEpochString(seconds as real)) == seconds * 1000 + 600000
  {
    TruncWhole(seconds);
  }

  lemma TruncWhole(n: int)
    ensures TruncTowardZero(n as real) == n
  {
    if n >= 0 {
      assert (n as real).Floor == n;
    } else {
      assert (-(n as real)).Floor == -n;
    }
  }

  /** What `date_time_process` returns: for each frequency its list of
      regexps, the tracking string and, in `Rev2` only, `end_epoch_str`. */
  datatype Processed = Processed(schedRegexpLists: map<string, seq<Regexp>>, dateTimeNormStr: string, endEpochStr: string)

  function DateTimeProcess(rev: Revision, t: RunTime, timestamp: real): (r: Processed)
    requires t.Valid()
    ensures r.schedRegexpLists.Keys == {Once, Periodic}
    ensures r.dateTimeNormStr == TrackString(t)
    ensures rev == Rev1 ==> r.endEpochStr == ""
    ensures rev == Rev2 ==> IsIntString(r.endEpochStr) && ParseInt(r.endEpochStr) == (TruncTowardZero(timestamp) + 600) * 1000
  {
    Processed(SchedRegexpLists(rev, t), TrackString(t), if rev == Rev2 then EndEpochString(timestamp) else "")
  }

  // ---------------------------------------------------------------------
  // What a tag value has to contain

  /** A two-digit minute whose tens digit is the run's: the units digit was
      replaced by `\d`. */
  predicate MinuteSupplied(t: RunTime, mm: string)
    requires t.Valid()
  {
    |mm| == 2 && mm[0] == DigitChar(t.minute / 10) && IsDigit(mm[1])
  }

  predicate MarkedToken(pre: string, t: RunTime, tok: string)
    requires t.Valid()
  {
    |tok| == |pre| + 2 && tok[..|pre|] == pre && MinuteSupplied(t, tok[|pre|..])
  }

  function DayTimePrefix(t: RunTime): string
    requires t.Valid()
  {
    "dTH:M=" + Pad2(t.day) + "T" + Pad2(t.hour) + ":"
  }

  function WeekdayTimePrefix(t: RunTime): string
    requires t.Valid()
  {
    "uTH:M=" + [DigitChar(t.weekday)] + "T" + Pad2(t.hour) + ":"
  }

  function HourMinutePrefix(t: RunTime): string
    requires t.Valid()
  {
    "H:M=" + Pad2(t.hour) + ":"
  }

  function OncePrefix(t: RunTime): string
    requires t.Valid()
  {
    NatToString(t.year) + "-" + Pad2(t.month) + "-" + Pad2(t.day) + "T" + Pad2(t.hour) + ":"
  }

  /** A part that names the day: `d=DD`, `d=*`, `d=_` (second revision),
      `u=U`, or a day-and-time part. */
  predicate DaySupplied(rev: Revision, t: RunTime, tok: string)
    requires t.Valid()
  {
    || MarkedToken(DayTimePrefix(t), t, tok)
    || MarkedToken(WeekdayTimePrefix(t), t, tok)
    || tok == "d=" + Pad2(t.day)
    || tok == "d=*"
    || (rev == Rev2 && tok == "d=_")
    || tok == "u=" + [DigitChar(t.weekday)]
  }

  /** A part that names the hour: `H=HH`, `H=*`, `H=_` (second revision),
      `H:M=`, or a day-and-time part. */
  predicate HourSupplied(rev: Revision, t: RunTime, tok: string)
    requires t.Valid()
  {
    || MarkedToken(DayTimePrefix(t), t, tok)
    || MarkedToken(WeekdayTimePrefix(t), t, tok)
    || MarkedToken(HourMinutePrefix(t), t, tok)
    || tok == "H=" + Pad2(t.hour)
    || tok == "H=*"
    || (rev == Rev2 && tok == "H=_")
  }

  /** A part that names the minute: `M=MM`, `H:M=`, or a day-and-time part. */
  predicate MinuteTokenSupplied(t: RunTime, tok: string)
    requires t.Valid()
  {
    || MarkedToken(DayTimePrefix(t), t, tok)
    || MarkedToken(WeekdayTimePrefix(t), t, tok)
    || MarkedToken(HourMinutePrefix(t), t, tok)
    || MarkedToken("M=", t, tok)
  }

  /** Some part of the value names the day. */
  predicate HasDayPart(rev: Revision, t: RunTime, v: string)
    requires t.Valid()
  {
    exists k :: 0 <= k < |Tokens(v)| && DaySupplied(rev, t, Tokens(v)[k])
  }

  predicate HasHourPart(rev: Revision, t: RunTime, v: string)
    requires t.Valid()
  {
    exists k :: 0 <= k < |Tokens(v)| && HourSupplied(rev, t, Tokens(v)[k])
  }

  predicate HasMinutePart(t: RunTime, v: string)
    requires t.Valid()
  {
    exists k :: 0 <= k < |Tokens(v)| && MinuteTokenSupplied(t, Tokens(v)[k])
  }

  /** Some part of the value is the run's date and time, `YYYY-MM-DDTHH:M?`. */
  predicate HasOncePart(t: RunTime, v: string)
    requires t.Valid()
  {
    exists k :: 0 <= k < |Tokens(v)| && MarkedToken(OncePrefix(t), t, Tokens(v)[k])
  }

  predicate PeriodicMatches(rev: Revision, t: RunTime, v: string)
    requires t.Valid()
  {
    AllSearch(SchedRegexpLists(rev, t)[Periodic], v)
  }

  predicate OnceMatches(rev: Revision, t: RunTime, v: string)
    requires t.Valid()
  {
    AllSearch(SchedRegexpLists(rev, t)[Once], v)
  }

  // ---------------------------------------------------------------------
  // Compilation lemmas

  lemma {:induction false} LitsAppend(a: string, b: string)
    ensures Lits(a + b) == Lits(a) + Lits(b)
  {
  }

  lemma {:induction false} MatchesAppend(p1: Pattern, p2: Pattern, w: string)
    ensures Matches(p1 + p2, w) <==> |w| == |p1| + |p2| && Matches(p1, w[..|p1|]) && Matches(p2, w[|p1|..])
  {
    if |w| == |p1| + |p2| {
      if Matches(p1, w[..|p1|]) && Matches(p2, w[|p1|..]) {
        forall i | 0 <= i < |p1 + p2|
          ensures CharMatches((p1 + p2)[i], w[i])
        {
          if i < |p1| {
            assert w[..|p1|][i] == w[i];
          } else {
            assert w[|p1|..][i - |p1|] == w[i];
          }
        }
      }
      if Matches(p1 + p2, w) {
        forall i | 0 <= i < |p1|
          ensures CharMatches(p1[i], w[..|p1|][i])
        {
          assert (p1 + p2)[i] == p1[i];
        }
        forall i | 0 <= i < |p2|
          ensures CharMatches(p2[i], w[|p1|..][i])
        {
          assert (p1 + p2)[|p1| + i] == p2[i];
        }
      }
    }
  }

  lemma MatchesLits(s: string, w: string)
    ensures Matches(Lits(s), w) <==> w == s
  {
    if Matches(Lits(s), w) {
      assert forall i :: 0 <= i < |s| ==> w[i] == s[i] by {
        forall i | 0 <= i < |s|
          ensures w[i] == s[i]
        {
          assert CharMatches(Lits(s)[i], w[i]);
        }
      }
    }
  }

  /** The compiled form of the two-digit minute in `%M~`. */
  function MinutePattern(t: RunTime): Pattern
    requires t.Valid()
  {
    if t.minute % 10 == 0 then [Lit(DigitChar(t.minute / 10)), AnyDigit]
    else Lits(Pad2(t.minute) + "~")
  }

  /** Characters that `CompileAlt` treats specially. */
  const Special: set<char> := {'~', '\\'}

  lemma NoneInTail(a: string, cs: set<char>)
    requires a != [] && NoneIn(a, cs)
    ensures NoneIn(a[1..], cs) && a[0] !in cs
  {
    forall i | 0 <= i < |a[1..]|
      ensures a[1..][i] !in cs
    {
      assert a[1..][i] == a[i + 1];
    }
  }

  lemma {:induction false} CompileAltPlain(a: string, b: string)
    requires NoneIn(a, Special)
    requires b == [] || b[0] != '~'
    ensures CompileAlt(a + b) == Lits(a) + CompileAlt(b)
    decreases |a|
  {
    if a != [] {
      PlainHead(a, b);
      CompileAltPlain(a[1..], b);
      CompileAltLit(a + b);
      ConsAppend(Lit(a[0]), Lits(a[1..]), CompileAlt(b));
    } else {
      assert a + b == b;
    }
  }

  /** The first two characters of `a + b` when `a` has no special one. */
  lemma PlainHead(a: string, b: string)
    requires a != [] && NoneIn(a, Special)
    requires b == [] || b[0] != '~'
    ensures (a + b)[0] == a[0] && a[0] != '\\' && (a + b)[1..] == a[1..] + b
    ensures |a + b| >= 2 ==> (a + b)[1] != '~'
    ensures NoneIn(a[1..], Special)
  {
    NoneInTail(a, Special);
    if |a| >= 2 {
      assert (a + b)[1] == a[1];
    } else if |a + b| >= 2 {
      assert (a + b)[1] == b[0];
    }
  }

  /** A character that starts neither `0~` nor `\*` stands for itself. */
  lemma CompileAltLit(x: string)
    requires x != [] && x[0] != '\\' && (|x| >= 2 ==> x[1] != '~')
    ensures CompileAlt(x) == [Lit(x[0])] + CompileAlt(x[1..])
  {
  }

  lemma ConsAppend<T>(x: T, p: seq<T>, q: seq<T>)
    ensures [x] + (p + q) == ([x] + p) + q
  {
  }

  lemma CompileMinute(t: RunTime)
    requires t.Valid()
    ensures CompileAlt(Pad2(t.minute) + "~") == MinutePattern(t)
  {
    var s := Pad2(t.minute) + "~";
    assert s[1..] == [s[1], '~'];
    assert s[0] == DigitChar(t.minute / 10);
    if t.minute % 10 == 0 {
      assert s[1] == '0';
      assert s[1..][2..] == [];
      assert CompileAlt(s[1..]) == [AnyDigit] + CompileAlt(s[1..][2..]);
    } else {
      assert s[1] != '0';
      assert s[1..][1..] == "~";
      assert s[1..][1..][1..] == [];
      assert CompileAlt("~") == [Lit('~')];
      assert CompileAlt(s[1..]) == [Lit(s[1]), Lit('~')];
      assert CompileAlt(s) == [Lit(s[0]), Lit(s[1]), Lit('~')];
      assert Lits(s) == [Lit(s[0]), Lit(s[1]), Lit('~')];
    }
  }

  predicate PlainItem(it: FmtItem) {
    it != MinuteMarked && (it.Str? ==> NoneIn(it.s, Special))
  }

  lemma {:induction false} StrftimePlain(tpl: Template, t: RunTime)
    requires t.Valid()
    requires forall i :: 0 <= i < |tpl| ==> PlainItem(tpl[i])
    ensures NoneIn(Strftime(tpl, t), Special)
    decreases |tpl|
  {
    if tpl != [] {
      StrftimePlain(tpl[1..], t);
      var s := StrftimeItem(tpl[0], t);
      assert NoneIn(s, Special) by {
        if tpl[0] == Year {
          assert AllDigits(s);
        }
      }
    }
  }

  lemma {:induction false} StrftimeAppend(a: Template, b: Template, t: RunTime)
    requires t.Valid()
    ensures Strftime(a + b, t) == Strftime(a, t) + Strftime(b, t)
    decreases |a|
  {
    if a != [] {
      assert (a + b)[1..] == a[1..] + b;
      StrftimeAppend(a[1..], b, t);
    } else {
      assert a + b == b;
    }
  }

  /** A template whose last item is `%M~` compiles to its text followed by
      the minute pattern. */
  lemma CompileMarked(pre: Template, t: RunTime)
    requires t.Valid()
    requires forall i :: 0 <= i < |pre| ==> PlainItem(pre[i])
    ensures CompileAlt(Strftime(pre + [MinuteMarked], t)) == Lits(Strftime(pre, t)) + MinutePattern(t)
  {
    StrftimeAppend(pre, [MinuteMarked], t);
    StrftimePlain(pre, t);
    var m := Pad2(t.minute) + "~";
    assert Strftime([MinuteMarked], t) == m;
    CompileAltPlain(Strftime(pre, t), m);
    CompileMinute(t);
  }

  lemma CompilePlain(tpl: Template, t: RunTime)
    requires t.Valid()
    requires forall i :: 0 <= i < |tpl| ==> PlainItem(tpl[i])
    ensures CompileAlt(Strftime(tpl, t)) == Lits(Strftime(tpl, t))
  {
    StrftimePlain(tpl, t);
    CompileAltPlain(Strftime(tpl, t), "");
    assert Strftime(tpl, t) + "" == Strftime(tpl, t);
  }

  lemma MatchesMarked(pre: string, t: RunTime, tok: string)
    requires t.Valid() && t.minute % 10 == 0
    ensures Matches(Lits(pre) + MinutePattern(t), tok) <==> MarkedToken(pre, t, tok)
  {
    MatchesAppend(Lits(pre), MinutePattern(t), tok);
    if |tok| == |pre| + 2 {
      MatchesLits(pre, tok[..|pre|]);
      var mm := tok[|pre|..];
      assert Matches(MinutePattern(t), mm) <==> MinuteSupplied(t, mm) by {
        assert Matches(MinutePattern(t), mm) <==> CharMatches(MinutePattern(t)[0], mm[0]) && CharMatches(MinutePattern(t)[1], mm[1]);
      }
    }
  }

  // The compiled alternatives of the formats, one at a time.

  /** A five-item template prints its items one after another. */
  lemma StrftimeFive(x: Template, t: RunTime)
    requires t.Valid() && |x| == 5
    ensures Strftime(x, t) == StrftimeItem(x[0], t) + StrftimeItem(x[1], t) + StrftimeItem(x[2], t)
                              + StrftimeItem(x[3], t) + StrftimeItem(x[4], t)
  {
    var a, b, c, d, e := StrftimeItem(x[0], t), StrftimeItem(x[1], t), StrftimeItem(x[2], t),
                         StrftimeItem(x[3], t), StrftimeItem(x[4], t);
    assert x[1..][0] == x[1] && x[1..][1..] == x[2..];
    assert x[2..][0] == x[2] && x[2..][1..] == x[3..];
    assert x[3..][0] == x[3] && x[3..][1..] == x[4..];
    assert x[4..][0] == x[4] && x[4..][1..] == [];
    assert Strftime(x[4..], t) == e + "";
    assert Strftime(x[3..], t) == d + (e + "");
    assert Strftime(x[2..], t) == c + (d + (e + ""));
    assert Strftime(x[1..], t) == b + (c + (d + (e + "")));
    assert Strftime(x, t) == a + (b + (c + (d + (e + ""))));
    AssocFive(a, b, c, d, e);
  }

  lemma AssocFive(a: string, b: string, c: string, d: string, e: string)
    ensures a + (b + (c + (d + (e + "")))) == a + b + c + d + e
  {
  }

  lemma DayTimeAlt(t: RunTime, tok: string)
    requires t.Valid() && t.minute % 10 == 0
    ensures Matches(CompileAlt(Strftime(DayTime, t)), tok) <==> MarkedToken(DayTimePrefix(t), t, tok)
  {
    var pre := [Str("dTH:M="), Day, Str("T"), Hour, Str(":")];
    assert DayTime == pre + [MinuteMarked];
    StrftimeFive(pre, t);
    assert Strftime(pre, t) == DayTimePrefix(t);
    assert CompileAlt(Strftime(DayTime, t)) == Lits(DayTimePrefix(t)) + MinutePattern(t) by {
      CompileMarked(pre, t);
    }
    MatchesMarked(DayTimePrefix(t), t, tok);
  }

  lemma WeekdayTimeAlt(t: RunTime, tok: string)
    requires t.Valid() && t.minute % 10 == 0
    ensures Matches(CompileAlt(Strftime(WeekdayTime, t)), tok) <==> MarkedToken(WeekdayTimePrefix(t), t, tok)
  {
    var pre := [Str("uTH:M="), Weekday, Str("T"), Hour, Str(":")];
    assert WeekdayTime == pre + [MinuteMarked];
    StrftimeFive(pre, t);
    assert Strftime(pre, t) == WeekdayTimePrefix(t);
    assert CompileAlt(Strftime(WeekdayTime, t)) == Lits(WeekdayTimePrefix(t)) + MinutePattern(t) by {
      CompileMarked(pre, t);
    }
    MatchesMarked(WeekdayTimePrefix(t), t, tok);
  }

  lemma HourMinuteAlt(t: RunTime, tok: string)
    requires t.Valid() && t.minute % 10 == 0
    ensures Matches(CompileAlt(Strftime(HourMinute, t)), tok) <==> MarkedToken(HourMinutePrefix(t), t, tok)
  {
    var pre := [Str("H:M="), Hour, Str(":")];
    assert HourMinute == pre + [MinuteMarked];
    assert Strftime(pre, t) == HourMinutePrefix(t);
    assert CompileAlt(Strftime(HourMinute, t)) == Lits(HourMinutePrefix(t)) + MinutePattern(t) by {
      CompileMarked(pre, t);
    }
    MatchesMarked(HourMinutePrefix(t), t, tok);
  }

  lemma MinuteAlt(t: RunTime, tok: string)
    requires t.Valid() && t.minute % 10 == 0
    ensures Matches(CompileAlt(Strftime([Str("M="), MinuteMarked], t)), tok) <==> MarkedToken("M=", t, tok)
  {
    var pre := [Str("M=")];
    assert [Str("M="), MinuteMarked] == pre + [MinuteMarked];
    assert Strftime(pre, t) == "M=";
    assert CompileAlt(Strftime([Str("M="), MinuteMarked], t)) == Lits("M=") + MinutePattern(t) by {
      CompileMarked(pre, t);
    }
    MatchesMarked("M=", t, tok);
  }

  lemma OnceAlt(t: RunTime, tok: string)
    requires t.Valid() && t.minute % 10 == 0
    ensures Matches(CompileAlt(Strftime(OnceTime, t)), tok) <==> MarkedToken(OncePrefix(t), t, tok)
  {
    var pre := OncePrefixTemplate;
    assert OnceTime == pre + [MinuteMarked];
    assert CompileAlt(Strftime(OnceTime, t)) == Lits(OncePrefix(t)) + MinutePattern(t) by {
      OncePrefixRendered(t);
      CompileMarked(pre, t);
    }
    MatchesMarked(OncePrefix(t), t, tok);
  }

  const OncePrefixTemplate: Template := [Year, Str("-"), Month, Str("-"), Day, Str("T"), Hour, Str(":")]

  lemma StrftimeCons(x: FmtItem, rest: Template, t: RunTime)
    requires t.Valid()
    ensures Strftime([x] + rest, t) == StrftimeItem(x, t) + Strftime(rest, t)
  {
    assert ([x] + rest)[1..] == rest;
  }

  lemma OncePrefixRendered(t: RunTime)
    requires t.Valid()
    ensures forall i :: 0 <= i < |OncePrefixTemplate| ==> PlainItem(OncePrefixTemplate[i])
    ensures Strftime(OncePrefixTemplate, t) == OncePrefix(t)
  {
    OnceChain(t);
    ConcatAssoc7(NatToString(t.year), "-", Pad2(t.month), "-", Pad2(t.day), "T", Pad2(t.hour) + ":");
    OncePrefixPlain();
  }

  lemma OnceChain(t: RunTime)
    requires t.Valid()
    ensures Strftime(OncePrefixTemplate, t)
         == NatToString(t.year) + ("-" + (Pad2(t.month) + ("-" + (Pad2(t.day) + ("T" + (Pad2(t.hour) + ":"))))))
  {
    var s8 := Str(":");
    var s7 := [Hour] + [s8];
    var s6 := [Str("T")] + s7;
    var s5 := [Day] + s6;
    var s4 := [Str("-")] + s5;
    var s3 := [Month] + s4;
    var s2 := [Str("-")] + s3;
    var s1 := [Year] + s2;
    assert s1 == OncePrefixTemplate;
    assert Strftime([s8], t) == ":";
    StrftimeCons(Hour, [s8], t);
    StrftimeCons(Str("T"), s7, t);
    StrftimeCons(Day, s6, t);
    StrftimeCons(Str("-"), s5, t);
    StrftimeCons(Month, s4, t);
    StrftimeCons(Str("-"), s3, t);
    StrftimeCons(Year, s2, t);
  }

  lemma ConcatAssoc7(a: string, b: string, c: string, d: string, e: string, f: string, g: string)
    ensures a + (b + (c + (d + (e + (f + g))))) == a + b + c + d + e + f + g
  {
  }

  lemma OncePrefixPlain()
    ensures forall i :: 0 <= i < |OncePrefixTemplate| ==> PlainItem(OncePrefixTemplate[i])
  {
    assert NoneIn("-", Special) && NoneIn("T", Special) && NoneIn(":", Special);
  }

  lemma PlainAlt(tpl: Template, t: RunTime, tok: string)
    requires t.Valid()
    requires forall i :: 0 <= i < |tpl| ==> PlainItem(tpl[i])
    ensures Matches(CompileAlt(Strftime(tpl, t)), tok) <==> tok == Strftime(tpl, t)
  {
    CompilePlain(tpl, t);
    MatchesLits(Strftime(tpl, t), tok);
  }

  lemma StarAlt(name: char, tok: string)
    requires name == 'd' || name == 'H'
    ensures Matches(CompileAlt([name] + "=\\*"), tok) <==> tok == [name] + "=*"
  {
    var s := [name] + "=\\*";
    assert CompileAlt("\\*") == [Lit('*')] + CompileAlt([]);
    assert s[1..] == "=\\*";
    assert "=\\*"[1..] == "\\*";
    assert CompileAlt("=\\*") == [Lit('=')] + CompileAlt("\\*");
    assert CompileAlt(s) == [Lit(name)] + CompileAlt(s[1..]);
    assert CompileAlt(s) == Lits([name] + "=*");
    MatchesLits([name] + "=*", tok);
  }

  lemma {:induction false} CompileGroupAt(alts: seq<Template>, t: RunTime, k: int)
    requires t.Valid() && 0 <= k < |alts|
    ensures CompileGroup(alts, t)[k] == CompileAlt(Strftime(alts[k], t))
    decreases |alts|
  {
    if k > 0 {
      CompileGroupAt(alts[1..], t, k - 1);
    }
  }

  lemma {:induction false} CompileFormatAt(groups: seq<seq<Template>>, t: RunTime, k: int)
    requires t.Valid() && 0 <= k < |groups|
    ensures CompileFormat(groups, t)[k] == Delimited(CompileGroup(groups[k], t))
    decreases |groups|
  {
    if k > 0 {
      CompileFormatAt(groups[1..], t, k - 1);
    }
  }

  /** Alternative `k` of a group, compiled for the run time, matches `tok`. */
  predicate AltHit(alts: seq<Template>, t: RunTime, k: int, tok: string)
    requires t.Valid()
  {
    0 <= k < |alts| && Matches(CompileAlt(Strftime(alts[k], t)), tok)
  }

  /** A group's regexp matches a part exactly when one of its alternatives,
      compiled, matches it. */
  lemma GroupMatchIff(alts: seq<Template>, t: RunTime, tok: string)
    requires t.Valid()
    ensures AnyAltMatches(CompileGroup(alts, t), tok) <==> exists k :: AltHit(alts, t, k, tok)
  {
    var cg := CompileGroup(alts, t);
    AnyAltMatchesIff(cg, tok);
    if exists k :: AltHit(alts, t, k, tok) {
      var k :| AltHit(alts, t, k, tok);
      CompileGroupAt(alts, t, k);
      assert Matches(cg[k], tok);
    }
    if exists k :: 0 <= k < |cg| && Matches(cg[k], tok) {
      var k :| 0 <= k < |cg| && Matches(cg[k], tok);
      CompileGroupAt(alts, t, k);
      assert AltHit(alts, t, k, tok);
    }
  }

  /** The regexp of a group of `n` alternatives matches exactly when one of
      alternatives 0 to `n - 1` does. */
  lemma GroupHitIff(alts: seq<Template>, t: RunTime, tok: string)
    requires t.Valid() && 4 <= |alts| <= 6
    ensures AnyAltMatches(CompileGroup(alts, t), tok) <==>
      AltHit(alts, t, 0, tok) || AltHit(alts, t, 1, tok) || AltHit(alts, t, 2, tok) ||
      AltHit(alts, t, 3, tok) || AltHit(alts, t, 4, tok) || AltHit(alts, t, 5, tok)
  {
    GroupMatchIff(alts, t, tok);
    if exists k :: AltHit(alts, t, k, tok) {
      var k :| AltHit(alts, t, k, tok);
      assert k == 0 || k == 1 || k == 2 || k == 3 || k == 4 || k == 5;
    }
  }

  /** Alternatives 0 to 3 of the day and hour groups. */
  lemma CommonAlts(g: seq<Template>, t: RunTime, tok: string)
    requires t.Valid() && t.minute % 10 == 0 && |g| >= 3
    requires g[0] == DayTime && g[1] == WeekdayTime
    ensures AltHit(g, t, 0, tok) <==> MarkedToken(DayTimePrefix(t), t, tok)
    ensures AltHit(g, t, 1, tok) <==> MarkedToken(WeekdayTimePrefix(t), t, tok)
    ensures g[2] == HourMinute ==> (AltHit(g, t, 2, tok) <==> MarkedToken(HourMinutePrefix(t), t, tok))
  {
    DayTimeAlt(t, tok);
    WeekdayTimeAlt(t, tok);
    if g[2] == HourMinute {
      HourMinuteAlt(t, tok);
    }
  }

  lemma StrftimePair(x: FmtItem, y: FmtItem, t: RunTime)
    requires t.Valid()
    ensures Strftime([x, y], t) == StrftimeItem(x, t) + StrftimeItem(y, t)
  {
    assert [x, y][1..] == [y];
    assert [y][1..] == [];
    assert Strftime([y], t) == StrftimeItem(y, t) + "";
  }

  /** Alternative `k` of a group is the fixed text `s` or a field. */
  lemma LiteralAlt(g: seq<Template>, t: RunTime, k: nat, tok: string)
    requires t.Valid() && k < |g|
    ensures g[k] == [Str("d="), Day] ==> (AltHit(g, t, k, tok) <==> tok == "d=" + Pad2(t.day))
    ensures g[k] == [Str("H="), Hour] ==> (AltHit(g, t, k, tok) <==> tok == "H=" + Pad2(t.hour))
    ensures g[k] == [Str("u="), Weekday] ==> (AltHit(g, t, k, tok) <==> tok == "u=" + [DigitChar(t.weekday)])
    ensures g[k] == [Str("d=_")] ==> (AltHit(g, t, k, tok) <==> tok == "d=_")
    ensures g[k] == [Str("H=_")] ==> (AltHit(g, t, k, tok) <==> tok == "H=_")
    ensures g[k] == [Str("d=\\*")] ==> (AltHit(g, t, k, tok) <==> tok == "d=*")
    ensures g[k] == [Str("H=\\*")] ==> (AltHit(g, t, k, tok) <==> tok == "H=*")
  {
    var a := g[k];
    if a == [Str("d="), Day] {
      PlainAlt(a, t, tok);
      StrftimePair(Str("d="), Day, t);
    } else if a == [Str("H="), Hour] {
      PlainAlt(a, t, tok);
      StrftimePair(Str("H="), Hour, t);
    } else if a == [Str("u="), Weekday] {
      PlainAlt(a, t, tok);
      StrftimePair(Str("u="), Weekday, t);
    } else if a == [Str("d=_")] || a == [Str("H=_")] {
      PlainAlt(a, t, tok);
      assert Strftime(a, t) == a[0].s;
    } else if a == [Str("d=\\*")] {
      assert Strftime(a, t) == ['d'] + "=\\*";
      StarAlt('d', tok);
    } else if a == [Str("H=\\*")] {
      assert Strftime(a, t) == ['H'] + "=\\*";
      StarAlt('H', tok);
    }
  }

  lemma DayGroupIff(rev: Revision, t: RunTime, tok: string)
    requires t.Valid() && t.minute % 10 == 0
    ensures AnyAltMatches(CompileGroup(DayGroup(rev), t), tok) <==> DaySupplied(rev, t, tok)
  {
    var g := DayGroup(rev);
    GroupHitIff(g, t, tok);
    CommonAlts(g, t, tok);
    LiteralAlt(g, t, 2, tok);
    LiteralAlt(g, t, 3, tok);
    LiteralAlt(g, t, 4, tok);
    if rev == Rev2 {
      LiteralAlt(g, t, 5, tok);
    }
  }

  lemma HourGroupIff(rev: Revision, t: RunTime, tok: string)
    requires t.Valid() && t.minute % 10 == 0
    ensures AnyAltMatches(CompileGroup(HourGroup(rev), t), tok) <==> HourSupplied(rev, t, tok)
  {
    var g := HourGroup(rev);
    GroupHitIff(g, t, tok);
    CommonAlts(g, t, tok);
    LiteralAlt(g, t, 3, tok);
    LiteralAlt(g, t, 4, tok);
    if rev == Rev2 {
      LiteralAlt(g, t, 5, tok);
    }
  }

  lemma MinuteGroupIff(t: RunTime, tok: string)
    requires t.Valid() && t.minute % 10 == 0
    ensures AnyAltMatches(CompileGroup(MinuteGroup, t), tok) <==> MinuteTokenSupplied(t, tok)
  {
    var g := MinuteGroup;
    GroupHitIff(g, t, tok);
    assert AltHit(g, t, 0, tok) <==> MarkedToken(DayTimePrefix(t), t, tok) by {
      DayTimeAlt(t, tok);
    }
    assert AltHit(g, t, 1, tok) <==> MarkedToken(WeekdayTimePrefix(t), t, tok) by {
      WeekdayTimeAlt(t, tok);
    }
    assert AltHit(g, t, 2, tok) <==> MarkedToken(HourMinutePrefix(t), t, tok) by {
      HourMinuteAlt(t, tok);
    }
    assert AltHit(g, t, 3, tok) <==> MarkedToken("M=", t, tok) by {
      MinuteAlt(t, tok);
    }
    assert !AltHit(g, t, 4, tok) && !AltHit(g, t, 5, tok);
  }

  lemma OnceGroupIff(t: RunTime, tok: string)
    requires t.Valid() && t.minute % 10 == 0
    ensures AnyAltMatches(CompileGroup([OnceTime], t), tok) <==> MarkedToken(OncePrefix(t), t, tok)
  {
    GroupMatchIff([OnceTime], t, tok);
    assert AltHit([OnceTime], t, 0, tok) <==> MarkedToken(OncePrefix(t), t, tok) by {
      OnceAlt(t, tok);
    }
    if exists k :: AltHit([OnceTime], t, k, tok) {
      var k :| AltHit([OnceTime], t, k, tok);
      assert k == 0;
    }
  }

  // ---------------------------------------------------------------------
  // Matching a whole tag value

  lemma SearchDayIff(rev: Revision, t: RunTime, v: string)
    requires t.Valid() && t.minute % 10 == 0
    ensures Search(Delimited(CompileGroup(DayGroup(rev), t)), v) <==> HasDayPart(rev, t, v)
  {
    var alts := CompileGroup(DayGroup(rev), t);
    if Search(Delimited(alts), v) {
      var k :| 0 <= k < |Tokens(v)| && AnyAltMatches(alts, Tokens(v)[k]);
      DayGroupIff(rev, t, Tokens(v)[k]);
    }
    if HasDayPart(rev, t, v) {
      var k :| 0 <= k < |Tokens(v)| && DaySupplied(rev, t, Tokens(v)[k]);
      DayGroupIff(rev, t, Tokens(v)[k]);
    }
  }

  lemma SearchHourIff(rev: Revision, t: RunTime, v: string)
    requires t.Valid() && t.minute % 10 == 0
    ensures Search(Delimited(CompileGroup(HourGroup(rev), t)), v) <==> HasHourPart(rev, t, v)
  {
    var alts := CompileGroup(HourGroup(rev), t);
    if Search(Delimited(alts), v) {
      var k :| 0 <= k < |Tokens(v)| && AnyAltMatches(alts, Tokens(v)[k]);
      HourGroupIff(rev, t, Tokens(v)[k]);
    }
    if HasHourPart(rev, t, v) {
      var k :| 0 <= k < |Tokens(v)| && HourSupplied(rev, t, Tokens(v)[k]);
      HourGroupIff(rev, t, Tokens(v)[k]);
    }
  }

  lemma SearchMinuteIff(t: RunTime, v: string)
    requires t.Valid() && t.minute % 10 == 0
    ensures Search(Delimited(CompileGroup(MinuteGroup, t)), v) <==> HasMinutePart(t, v)
  {
    var alts := CompileGroup(MinuteGroup, t);
    if Search(Delimited(alts), v) {
      var k :| 0 <= k < |Tokens(v)| && AnyAltMatches(alts, Tokens(v)[k]);
      MinuteGroupIff(t, Tokens(v)[k]);
    }
    if HasMinutePart(t, v) {
      var k :| 0 <= k < |Tokens(v)| && MinuteTokenSupplied(t, Tokens(v)[k]);
      MinuteGroupIff(t, Tokens(v)[k]);
    }
  }

  lemma SearchOnceIff(t: RunTime, v: string)
    requires t.Valid() && t.minute % 10 == 0
    ensures Search(Delimited(CompileGroup([OnceTime], t)), v) <==> HasOncePart(t, v)
  {
    var alts := CompileGroup([OnceTime], t);
    if Search(Delimited(alts), v) {
      var k :| 0 <= k < |Tokens(v)| && AnyAltMatches(alts, Tokens(v)[k]);
      OnceGroupIff(t, Tokens(v)[k]);
    }
    if HasOncePart(t, v) {
      var k :| 0 <= k < |Tokens(v)| && MarkedToken(OncePrefix(t), t, Tokens(v)[k]);
      OnceGroupIff(t, Tokens(v)[k]);
    }
  }

  /** A periodic schedule value matches the (normalised) run time exactly
      when it has a part naming the day, a part naming the hour and a part
      naming the minute; one day-and-time part names all three. */
  lemma PeriodicMatchIff(rev: Revision, t: RunTime, v: string)
    requires t.Valid() && t.minute % 10 == 0
    ensures PeriodicMatches(rev, t, v) <==> HasDayPart(rev, t, v) && HasHourPart(rev, t, v) && HasMinutePart(t, v)
  {
    var rs := SchedRegexpLists(rev, t)[Periodic];
    var groups := SchedRegexpListsAt(rev, t, Periodic);
    CompileFormatAt(groups, t, 0);
    CompileFormatAt(groups, t, 1);
    CompileFormatAt(groups, t, 2);
    SearchDayIff(rev, t, v);
    SearchHourIff(rev, t, v);
    SearchMinuteIff(t, v);
    assert AllSearch(rs, v) <==> Search(rs[0], v) && Search(rs[1], v) && Search(rs[2], v) by {
      if Search(rs[0], v) && Search(rs[1], v) && Search(rs[2], v) {
        forall i | 0 <= i < |rs|
          ensures Search(rs[i], v)
        {
          assert i == 0 || i == 1 || i == 2;
        }
      }
    }
  }

  /** A one-time schedule value matches exactly when one of its parts is
      `YYYY-MM-DDTHH:M?` for the run time, whatever the other parts are. */
  lemma OnceMatchIff(rev: Revision, t: RunTime, v: string)
    requires t.Valid() && t.minute % 10 == 0
    ensures OnceMatches(rev, t, v) <==> HasOncePart(t, v)
  {
    var rs := SchedRegexpLists(rev, t)[Once];
    var r := Delimited(CompileGroup([OnceTime], t));
    assert rs == [r] by {
      assert rs == CompileFormat(OnceFormat, t);
      CompileFormatAt(OnceFormat, t, 0);
    }
    assert rs[0] == r;
    if Search(r, v) {
      forall i | 0 <= i < |rs|
        ensures Search(rs[i], v)
      {
        assert i == 0;
      }
    }
    assert OnceMatches(rev, t, v) == AllSearch(rs, v);
    assert Search(r, v) <==> HasOncePart(t, v) by {
      SearchOnceIff(t, v);
    }
  }

  // ---------------------------------------------------------------------
  // The token reading is the regexp meaning

  predicate TemplateDelimFree(tpl: Template) {
    forall i :: 0 <= i < |tpl| ==> tpl[i].Str? ==> NoneIn(tpl[i].s, Delims)
  }

  predicate FormatDelimFree(groups: seq<seq<Template>>) {
    forall g, k :: 0 <= g < |groups| && 0 <= k < |groups[g]| ==> TemplateDelimFree(groups[g][k])
  }

  lemma {:induction false} CompileAltDelimFree(s: string)
    requires NoneIn(s, Delims)
    ensures PatDelimFree(CompileAlt(s))
    decreases |s|
  {
    if s != [] {
      if |s| >= 2 && ((s[0] == '0' && s[1] == '~') || (s[0] == '\\' && s[1] == '*')) {
        CompileAltDelimFree(s[2..]);
      } else {
        CompileAltDelimFree(s[1..]);
      }
    }
  }

  lemma {:induction false} StrftimeDelimFree(tpl: Template, t: RunTime)
    requires t.Valid() && TemplateDelimFree(tpl)
    ensures NoneIn(Strftime(tpl, t), Delims)
    decreases |tpl|
  {
    if tpl != [] {
      StrftimeDelimFree(tpl[1..], t);
      var s := StrftimeItem(tpl[0], t);
      assert NoneIn(s, Delims) by {
        if tpl[0] == Year {
          assert AllDigits(s);
        }
      }
    }
  }

  lemma {:induction false} CompileGroupDelimFree(alts: seq<Template>, t: RunTime)
    requires t.Valid() && forall k :: 0 <= k < |alts| ==> TemplateDelimFree(alts[k])
    ensures AltsDelimFree(CompileGroup(alts, t))
  {
    forall k | 0 <= k < |alts|
      ensures PatDelimFree(CompileGroup(alts, t)[k])
    {
      CompileGroupAt(alts, t, k);
      StrftimeDelimFree(alts[k], t);
      CompileAltDelimFree(Strftime(alts[k], t));
    }
  }

  predicate GroupDelimFree(g: seq<Template>) {
    forall k :: 0 <= k < |g| ==> TemplateDelimFree(g[k])
  }

  lemma TimeTemplatesDelimFree()
    ensures TemplateDelimFree(DayTime) && TemplateDelimFree(WeekdayTime)
    ensures TemplateDelimFree(HourMinute) && TemplateDelimFree(OnceTime)
  {
    assert NoneIn("dTH:M=", Delims) && NoneIn("uTH:M=", Delims) && NoneIn("H:M=", Delims);
    assert NoneIn("T", Delims) && NoneIn(":", Delims) && NoneIn("-", Delims);
  }

  lemma GroupsDelimFree(rev: Revision)
    ensures GroupDelimFree(DayGroup(rev)) && GroupDelimFree(HourGroup(rev))
    ensures GroupDelimFree(MinuteGroup) && GroupDelimFree([OnceTime])
  {
    TimeTemplatesDelimFree();
    DayGroupDelimFree(rev);
    HourGroupDelimFree(rev);
    assert NoneIn("M=", Delims);
    assert TemplateDelimFree([Str("M="), MinuteMarked]);
  }

  lemma DayGroupDelimFree(rev: Revision)
    ensures GroupDelimFree(DayGroup(rev))
  {
    TimeTemplatesDelimFree();
    assert NoneIn("d=", Delims) && NoneIn("d=\\*", Delims) && NoneIn("d=_", Delims) && NoneIn("u=", Delims);
    assert TemplateDelimFree([Str("d="), Day]) && TemplateDelimFree([Str("d=\\*")]);
    assert TemplateDelimFree([Str("d=_")]) && TemplateDelimFree([Str("u="), Weekday]);
  }

  lemma HourGroupDelimFree(rev: Revision)
    ensures GroupDelimFree(HourGroup(rev))
  {
    TimeTemplatesDelimFree();
    assert NoneIn("H=", Delims) && NoneIn("H=\\*", Delims) && NoneIn("H=_", Delims);
    assert TemplateDelimFree([Str("H="), Hour]) && TemplateDelimFree([Str("H=\\*")]) && TemplateDelimFree([Str("H=_")]);
  }

  lemma FormatsDelimFree(rev: Revision)
    ensures FormatDelimFree(PeriodicFormat(rev)) && FormatDelimFree(OnceFormat)
  {
    GroupsDelimFree(rev);
    var f := PeriodicFormat(rev);
    assert f[0] == DayGroup(rev) && f[1] == HourGroup(rev) && f[2] == MinuteGroup;
    assert OnceFormat[0] == [OnceTime];
  }

  /** Reading the compiled schedule regexps token by token is exact: a
      search by any of them succeeds precisely when the regexp
      `(^|[, ])(...)([, ]|$)` finds a match. */
  lemma ScheduleRegexpMeaning(rev: Revision, t: RunTime, freq: string, i: nat, v: string)
    requires t.Valid() && freq in SchedRegexpLists(rev, t) && i < |SchedRegexpLists(rev, t)[freq]|
    ensures Search(SchedRegexpLists(rev, t)[freq][i], v) <==> RegexpSearch(SchedRegexpLists(rev, t)[freq][i], v)
  {
    var groups := SchedRegexpListsAt(rev, t, freq);
    FormatsDelimFree(rev);
    FormatRegexpMeaning(groups, t, i, v);
  }

  lemma SchedRegexpListsAt(rev: Revision, t: RunTime, freq: string) returns (groups: seq<seq<Template>>)
    requires t.Valid() && freq in SchedRegexpLists(rev, t)
    ensures groups == (if freq == Once then OnceFormat else PeriodicFormat(rev))
    ensures SchedRegexpLists(rev, t)[freq] == CompileFormat(groups, t)
  {
    groups := if freq == Once then OnceFormat else PeriodicFormat(rev);
  }

  lemma FormatRegexpMeaning(groups: seq<seq<Template>>, t: RunTime, i: nat, v: string)
    requires t.Valid() && FormatDelimFree(groups) && i < |groups|
    ensures Search(CompileFormat(groups, t)[i], v) <==> RegexpSearch(CompileFormat(groups, t)[i], v)
  {
    CompileFormatAt(groups, t, i);
    CompileGroupDelimFree(groups[i], t);
    SearchIsRegexpSearch(CompileFormat(groups, t)[i], v);
  }

  // ---------------------------------------------------------------------
  // Consequences

  /** The minute's units digit is ignored: a part `M=mm` fires at a
      normalised run time exactly when `mm` has the same tens digit. */
  lemma MinuteUnitsDigitIgnored(t: RunTime, m: nat)
    requires t.Valid() && t.minute % 10 == 0 && m < 60
    ensures MinuteTokenSupplied(t, "M=" + Pad2(m)) <==> m / 10 == t.minute / 10
  {
    var tok := "M=" + Pad2(m);
    assert tok[..2] == "M=" && tok[2..] == Pad2(m);
    if DigitChar(m / 10) == DigitChar(t.minute / 10) {
      assert DigitValue(DigitChar(m / 10)) == DigitValue(DigitChar(t.minute / 10));
    }
  }

  /** A value's parts count wherever they appear: joining two values with
      a delimiter gives a value that supplies what either one supplies. */
  lemma TokensConcat(a: string, c: char, b: string)
    requires c in Delims
    ensures Tokens(a + [c] + b) == Tokens(a) + Tokens(b)
  {
    SplitConcat(a, c, b, Delims);
  }

  lemma {:induction false} ExistsInConcat(a: seq<string>, b: seq<string>, P: string -> bool)
    ensures (exists k :: 0 <= k < |a + b| && P((a + b)[k])) <==>
            (exists k :: 0 <= k < |a| && P(a[k])) || (exists k :: 0 <= k < |b| && P(b[k]))
  {
    if exists k :: 0 <= k < |a + b| && P((a + b)[k]) {
      var k :| 0 <= k < |a + b| && P((a + b)[k]);
      if k >= |a| {
        assert (a + b)[k] == b[k - |a|];
      } else {
        assert (a + b)[k] == a[k];
      }
    }
    if exists k :: 0 <= k < |a| && P(a[k]) {
      var k :| 0 <= k < |a| && P(a[k]);
      assert (a + b)[k] == a[k];
    }
    if exists k :: 0 <= k < |b| && P(b[k]) {
      var k :| 0 <= k < |b| && P(b[k]);
      assert (a + b)[|a| + k] == b[k];
    }
  }

  /** Extra parts never take a match away, and parts that name nothing
      (malformed ones included) change nothing: matching is compositional. */
  lemma ConcatParts(rev: Revision, t: RunTime, a: string, c: char, b: string)
    requires t.Valid() && c in Delims
    ensures HasDayPart(rev, t, a + [c] + b) <==> HasDayPart(rev, t, a) || HasDayPart(rev, t, b)
    ensures HasHourPart(rev, t, a + [c] + b) <==> HasHourPart(rev, t, a) || HasHourPart(rev, t, b)
    ensures HasMinutePart(t, a + [c] + b) <==> HasMinutePart(t, a) || HasMinutePart(t, b)
    ensures HasOncePart(t, a + [c] + b) <==> HasOncePart(t, a) || HasOncePart(t, b)
  {
    DayPartsConcat(rev, t, a, c, b);
    HourPartsConcat(rev, t, a, c, b);
    MinutePartsConcat(t, a, c, b);
    OncePartsConcat(t, a, c, b);
  }

  lemma DayPartsConcat(rev: Revision, t: RunTime, a: string, c: char, b: string)
    requires t.Valid() && c in Delims
    ensures HasDayPart(rev, t, a + [c] + b) <==> HasDayPart(rev, t, a) || HasDayPart(rev, t, b)
  {
    TokensConcat(a, c, b);
    ExistsInConcat(Tokens(a), Tokens(b), tok => DaySupplied(rev, t, tok));
  }

  lemma HourPartsConcat(rev: Revision, t: RunTime, a: string, c: char, b: string)
    requires t.Valid() && c in Delims
    ensures HasHourPart(rev, t, a + [c] + b) <==> HasHourPart(rev, t, a) || HasHourPart(rev, t, b)
  {
    TokensConcat(a, c, b);
    ExistsInConcat(Tokens(a), Tokens(b), tok => HourSupplied(rev, t, tok));
  }

  lemma MinutePartsConcat(t: RunTime, a: string, c: char, b: string)
    requires t.Valid() && c in Delims
    ensures HasMinutePart(t, a + [c] + b) <==> HasMinutePart(t, a) || HasMinutePart(t, b)
  {
    TokensConcat(a, c, b);
    ExistsInConcat(Tokens(a), Tokens(b), tok => MinuteTokenSupplied(t, tok));
  }

  lemma OncePartsConcat(t: RunTime, a: string, c: char, b: string)
    requires t.Valid() && c in Delims
    ensures HasOncePart(t, a + [c] + b) <==> HasOncePart(t, a) || HasOncePart(t, b)
  {
    TokensConcat(a, c, b);
    ExistsInConcat(Tokens(a), Tokens(b), tok => MarkedToken(OncePrefix(t), t, tok));
  }

  /** Appending malformed or unrelated parts to a schedule value neither
      makes it fire nor stops it firing. */
  lemma GarbageIgnored(rev: Revision, t: RunTime, v: string, c: char, garbage: string)
    requires t.Valid() && t.minute % 10 == 0 && c in Delims
    requires !HasDayPart(rev, t, garbage) && !HasHourPart(rev, t, garbage)
    requires !HasMinutePart(t, garbage) && !HasOncePart(t, garbage)
    ensures PeriodicMatches(rev, t, v + [c] + garbage) <==> PeriodicMatches(rev, t, v)
    ensures OnceMatches(rev, t, v + [c] + garbage) <==> OnceMatches(rev, t, v)
  {
    ConcatParts(rev, t, v, c, garbage);
    PeriodicMatchIff(rev, t, v);
    PeriodicMatchIff(rev, t, v + [c] + garbage);
    OnceMatchIff(rev, t, v);
    OnceMatchIff(rev, t, v + [c] + garbage);
  }

  /** `d=*,H=*,M=mm` fires at every normalised run time whose minute has
      the tens digit of `mm`. */
  lemma WildcardsFireDaily(rev: Revision, t: RunTime)
    requires t.Valid() && t.minute % 10 == 0
    ensures PeriodicMatches(rev, t, "d=*,H=*,M=" + Pad2(t.minute))
  {
    var parts := ["d=*", "H=*", "M=" + Pad2(t.minute)];
    var v := "d=*,H=*,M=" + Pad2(t.minute);
    Join3("d=*", "H=*", "M=" + Pad2(t.minute), ',');
    assert v == "d=*" + [','] + "H=*" + [','] + ("M=" + Pad2(t.minute));
    assert NoneIn(parts[2], Delims) by {
      assert parts[2][2..] == Pad2(t.minute);
    }
    SplitJoin(parts, ',', Delims);
    assert Tokens(v) == parts;
    assert DaySupplied(rev, t, Tokens(v)[0]);
    assert HourSupplied(rev, t, Tokens(v)[1]);
    MinuteUnitsDigitIgnored(t, t.minute);
    assert MinuteTokenSupplied(t, Tokens(v)[2]);
    PeriodicMatchIff(rev, t, v);
  }

  lemma UnderscoreParts(t: RunTime)
    requires t.Valid() && t.minute % 10 == 0
    ensures Tokens("d=_,H=_,M=" + Pad2(t.minute)) == ["d=_", "H=_", "M=" + Pad2(t.minute)]
  {
    var parts := ["d=_", "H=_", "M=" + Pad2(t.minute)];
    var v := "d=_,H=_,M=" + Pad2(t.minute);
    Join3("d=_", "H=_", "M=" + Pad2(t.minute), ',');
    assert v == "d=_" + [','] + "H=_" + [','] + ("M=" + Pad2(t.minute));
    assert NoneIn(parts[2], Delims) by {
      assert parts[2][2..] == Pad2(t.minute);
    }
    SplitJoin(parts, ',', Delims);
  }

  /** The first two characters of every part that names the day. */
  lemma DaySuppliedShape(rev: Revision, t: RunTime, tok: string)
    requires t.Valid() && DaySupplied(rev, t, tok)
    ensures |tok| >= 3 && (tok[0] == 'd' || tok[0] == 'u')
    ensures |tok| == 3 && tok[0] == 'd' ==> tok[2] == '*' || (rev == Rev2 && tok[2] == '_')
  {
    if MarkedToken(DayTimePrefix(t), t, tok) {
      assert tok[..|DayTimePrefix(t)|][0] == tok[0];
    } else if MarkedToken(WeekdayTimePrefix(t), t, tok) {
      assert tok[..|WeekdayTimePrefix(t)|][0] == tok[0];
    }
  }

  /** `_` is a wildcard in the second revision. */
  lemma UnderscoreWildcard(t: RunTime)
    requires t.Valid() && t.minute % 10 == 0
    ensures PeriodicMatches(Rev2, t, "d=_,H=_,M=" + Pad2(t.minute))
  {
    var v := "d=_,H=_,M=" + Pad2(t.minute);
    assert HasDayPart(Rev2, t, v) && HasHourPart(Rev2, t, v) && HasMinutePart(t, v) by {
      UnderscoreParts(t);
      MinuteUnitsDigitIgnored(t, t.minute);
      assert DaySupplied(Rev2, t, Tokens(v)[0]);
      assert HourSupplied(Rev2, t, Tokens(v)[1]);
      assert MinuteTokenSupplied(t, Tokens(v)[2]);
    }
    PeriodicMatchIff(Rev2, t, v);
  }

  /** The first revision does not know the `_` wildcard. */
  lemma UnderscoreUnknownInRev1(t: RunTime)
    requires t.Valid() && t.minute % 10 == 0
    ensures !PeriodicMatches(Rev1, t, "d=_,H=_,M=" + Pad2(t.minute))
  {
    var v := "d=_,H=_,M=" + Pad2(t.minute);
    assert !HasDayPart(Rev1, t, v) by {
      UnderscoreParts(t);
      forall k | 0 <= k < 3
        ensures !DaySupplied(Rev1, t, Tokens(v)[k])
      {
        if DaySupplied(Rev1, t, Tokens(v)[k]) {
          DaySuppliedShape(Rev1, t, Tokens(v)[k]);
        }
      }
    }
    PeriodicMatchIff(Rev1, t, v);
  }

  /** A value without a minute part never fires, whatever else it holds. */
  lemma NoMinuteNeverFires(rev: Revision, t: RunTime, v: string)
    requires t.Valid() && t.minute % 10 == 0 && !HasMinutePart(t, v)
    ensures !PeriodicMatches(rev, t, v)
  {
    PeriodicMatchIff(rev, t, v);
  }

  /** `d=* H=*` names every day and hour but no minute, so it never fires. */
  lemma NoMinuteExample(rev: Revision, t: RunTime)
    requires t.Valid() && t.minute % 10 == 0
    ensures !PeriodicMatches(rev, t, "d=* H=*")
  {
    NoMinuteParts(t);
    NoMinuteNeverFires(rev, t, "d=* H=*");
  }

  lemma NoMinuteParts(t: RunTime)
    requires t.Valid()
    ensures !HasMinutePart(t, "d=* H=*")
  {
    var v := "d=* H=*";
    Join2("d=*", "H=*", ' ');
    assert v == "d=*" + [' '] + "H=*";
    SplitJoin(["d=*", "H=*"], ' ', Delims);
    assert Tokens(v) == ["d=*", "H=*"];
    assert |DayTimePrefix(t)| == 12 && |WeekdayTimePrefix(t)| == 11 && |HourMinutePrefix(t)| == 7;
  }

  /** A value with no recognisable part never fires, neither as a periodic
      nor as a one-time schedule. */
  lemma MalformedNeverFires(rev: Revision, t: RunTime)
    requires t.Valid() && t.minute % 10 == 0
    ensures !PeriodicMatches(rev, t, "Monday")
    ensures !OnceMatches(rev, t, "Monday")
  {
    var v := "Monday";
    assert !HasDayPart(rev, t, v) && !HasOncePart(t, v) by {
      MondayNamesNothing(rev, t);
    }
    assert !PeriodicMatches(rev, t, v) by {
      PeriodicMatchIff(rev, t, v);
    }
    OnceMatchIff(rev, t, v);
  }

  lemma MondayNamesNothing(rev: Revision, t: RunTime)
    requires t.Valid()
    ensures !HasDayPart(rev, t, "Monday") && !HasOncePart(t, "Monday")
  {
    var v := "Monday";
    assert Tokens(v) == [v] by {
      SplitNoSep(v, Delims);
    }
    assert !DaySupplied(rev, t, v) by {
      assert |DayTimePrefix(t)| == 12 && |WeekdayTimePrefix(t)| == 11;
      assert |"d=" + Pad2(t.day)| == 4 && |"u=" + [DigitChar(t.weekday)]| == 3;
    }
    assert !MarkedToken(OncePrefix(t), t, v) by {
      assert |OncePrefix(t)| >= 11;
    }
  }

  lemma ElevenThirtyParts()
    ensures Tokens("d=*,H:M=11:30") == ["d=*", "H:M=11:30"]
  {
    var v := "d=*,H:M=11:30";
    Join2("d=*", "H:M=11:30", ',');
    assert v == "d=*" + [','] + "H:M=11:30";
    SplitJoin(["d=*", "H:M=11:30"], ',', Delims);
  }

  lemma ElevenThirtyToken(t: RunTime)
    requires t.Valid() && t.hour == 11 && t.minute == 30
    ensures MarkedToken(HourMinutePrefix(t), t, "H:M=11:30")
  {
    assert Pad2(11) == "11" by {
      assert DigitChar(1) == '1';
    }
    assert HourMinutePrefix(t) == "H:M=11:";
    var tok := "H:M=11:30";
    assert tok[..7] == "H:M=11:";
    assert tok[7..] == "30";
    assert DigitChar(3) == '3';
  }

  lemma ElevenThirtyParts30(rev: Revision, t: RunTime)
    requires t.Valid() && t.hour == 11 && t.minute == 30
    ensures HasDayPart(rev, t, "d=*,H:M=11:30") && HasHourPart(rev, t, "d=*,H:M=11:30") && HasMinutePart(t, "d=*,H:M=11:30")
  {
    var v := "d=*,H:M=11:30";
    ElevenThirtyParts();
    ElevenThirtyToken(t);
    assert DaySupplied(rev, t, Tokens(v)[0]);
    assert HourSupplied(rev, t, Tokens(v)[1]);
    assert MinuteTokenSupplied(t, Tokens(v)[1]);
  }

  lemma ElevenThirtyParts20(t: RunTime)
    requires t.Valid() && t.hour == 11 && t.minute == 20
    ensures !HasMinutePart(t, "d=*,H:M=11:30")
  {
    ElevenThirtyParts();
    ElevenThirtyTokenNot(t);
    NoMinutePartOfTwo(t, "d=*,H:M=11:30", "d=*", "H:M=11:30");
  }

  lemma NoMinutePartOfTwo(t: RunTime, v: string, a: string, b: string)
    requires t.Valid() && Tokens(v) == [a, b]
    requires !MinuteTokenSupplied(t, a) && !MinuteTokenSupplied(t, b)
    ensures !HasMinutePart(t, v)
  {
    forall k | 0 <= k < |Tokens(v)|
      ensures !MinuteTokenSupplied(t, Tokens(v)[k])
    {
      assert Tokens(v)[k] == a || Tokens(v)[k] == b;
    }
  }

  lemma ElevenThirtyTokenNot(t: RunTime)
    requires t.Valid() && t.hour == 11 && t.minute == 20
    ensures !MinuteTokenSupplied(t, "H:M=11:30") && !MinuteTokenSupplied(t, "d=*")
  {
    var tok := "H:M=11:30";
    assert !MarkedToken(HourMinutePrefix(t), t, tok) by {
      assert |HourMinutePrefix(t)| == 7;
      assert tok[7..][0] == '3';
      assert DigitChar(2) == '2';
    }
    assert |DayTimePrefix(t)| == 12 && |WeekdayTimePrefix(t)| == 11 && |HourMinutePrefix(t)| == 7;
  }

  /** `d=*,H:M=11:30` fires for runs from 11:30 to 11:39 (normalised to
      11:30), on any day, and not for a run from 11:20 to 11:29 (normalised
      to 11:20). */
  lemma ElevenThirtyFires(rev: Revision, now: RunTime)
    requires now.Valid() && now.hour == 11 && 30 <= now.minute < 40
    ensures PeriodicMatches(rev, FloorTen(now), "d=*,H:M=11:30")
  {
    ElevenThirtyParts30(rev, FloorTen(now));
    PeriodicMatchIff(rev, FloorTen(now), "d=*,H:M=11:30");
  }

  lemma ElevenThirtyNotBefore(rev: Revision, now: RunTime)
    requires now.Valid() && now.hour == 11 && 20 <= now.minute < 30
    ensures !PeriodicMatches(rev, FloorTen(now), "d=*,H:M=11:30")
  {
    ElevenThirtyParts20(FloorTen(now));
    PeriodicMatchIff(rev, FloorTen(now), "d=*,H:M=11:30");
  }
}
