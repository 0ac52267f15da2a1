/** The retention decision of the backup program: the master dict from a
    date to that date's DEL, KEEP, BEGIN and END entries, the recording of
    interval boundaries, the sweep over the dates that keeps the first
    backup of each parent in each open interval period, and the choice of
    which backups to tag. Dates are instants, as integers. */
module Retention {
  import opened Wrappers
  import opened RetentionTags

  type Tags = map<string, string>

  /** A backup: region, service, parent resource ID, own ID. */
  datatype RKey = RKey(region: string, svc: string, parent: string, rsrcId: string)

  /** A parent, as an open interval period records it. */
  datatype PKey = PKey(region: string, svc: string, parent: string)

  function ParentOf(k: RKey): PKey {
    PKey(k.region, k.svc, k.parent)
  }

  /** One date's entry of the master dict: the backups created then, to
      delete and to keep, with their tags, and the intervals or interval
      periods beginning and ending then. */
  datatype DateRec = DateRec(del: map<RKey, Tags>, keep: map<RKey, Tags>, begin: set<string>, end: set<string>)

  /** What the defaultdict creates for a date it has not seen. */
  const EmptyRec := DateRec(map[], map[], {}, {})

  function At(recs: map<int, DateRec>, d: int): DateRec {
    if d in recs then recs[d] else EmptyRec
  }

  /** `rsrcs[boundary][END].add(interval)`. */
  function AddEnd(recs: map<int, DateRec>, d: int, name: string): map<int, DateRec> {
    recs[d := At(recs, d).(end := At(recs, d).end + {name})]
  }

  /** `rsrcs[boundary][BEGIN].add(interval)`. */
  function AddBegin(recs: map<int, DateRec>, d: int, name: string): map<int, DateRec> {
    recs[d := At(recs, d).(begin := At(recs, d).begin + {name})]
  }

  // ---------------------------------------------------------------------
  // intervals_process

  /** How many boundaries the loop consumes when it has consumed `i`
      without stopping: it stops after a begin boundary earlier than
      `dateMin`, or when the boundaries run out. */
  function TakenFrom(bs: seq<int>, dateMin: int, i: nat): (n: nat)
    requires 1 <= i <= |bs|
    ensures i <= n <= |bs|
    decreases |bs| - i
  {
    if i == |bs| then i else if bs[i] < dateMin then i + 1 else TakenFrom(bs, dateMin, i + 1)
  }

  /** How many of an interval's boundaries are recorded: the first, as
      its end, then the later ones up to and including the first that is
      earlier than `dateMin`. */
  function Taken(bs: seq<int>, dateMin: int): (n: nat)
    ensures n <= |bs|
  {
    if bs == [] then 0 else TakenFrom(bs, dateMin, 1)
  }

  lemma {:induction false} TakenFromBounds(bs: seq<int>, dateMin: int, i: nat)
    requires 1 <= i <= |bs|
    ensures i <= TakenFrom(bs, dateMin, i) <= |bs|
    ensures forall j :: i <= j < TakenFrom(bs, dateMin, i) - 1 ==> bs[j] >= dateMin
    ensures TakenFrom(bs, dateMin, i) < |bs| ==> i < TakenFrom(bs, dateMin, i) && bs[TakenFrom(bs, dateMin, i) - 1] < dateMin
    decreases |bs| - i
  {
    if i < |bs| && bs[i] >= dateMin {
      TakenFromBounds(bs, dateMin, i + 1);
    }
  }

  /** The loop stops right after the first begin boundary earlier than
      `dateMin`: every begin boundary recorded before the last one is at
      least `dateMin`, and if some boundaries are left unrecorded, the
      last one recorded is a begin boundary earlier than `dateMin`. */
  lemma TakenIff(bs: seq<int>, dateMin: int)
    ensures Taken(bs, dateMin) <= |bs|
    ensures bs != [] <==> Taken(bs, dateMin) >= 1
    ensures forall j :: 1 <= j < Taken(bs, dateMin) - 1 ==> bs[j] >= dateMin
    ensures Taken(bs, dateMin) < |bs| ==> 2 <= Taken(bs, dateMin) && bs[Taken(bs, dateMin) - 1] < dateMin
  {
    if bs != [] {
      TakenFromBounds(bs, dateMin, 1);
    }
  }

  /** Adding `name` to BEGIN at each date of `bs`, in order. */
  function MarkBegins(recs: map<int, DateRec>, name: string, bs: seq<int>): map<int, DateRec>
    decreases |bs|
  {
    if bs == [] then recs else AddBegin(MarkBegins(recs, name, bs[..|bs| - 1]), bs[|bs| - 1], name)
  }

  /** The dict after the first `j` boundaries of interval `name`. */
  function MarkPrefix(recs: map<int, DateRec>, name: string, bs: seq<int>, j: nat): map<int, DateRec>
    requires j <= |bs|
  {
    if j == 0 then recs else MarkBegins(AddEnd(recs, bs[0], name), name, bs[1..j])
  }

  /** The dict after one interval's boundaries are recorded. */
  function MarkInterval(recs: map<int, DateRec>, name: string, bs: seq<int>, dateMin: int): map<int, DateRec> {
    MarkPrefix(recs, name, bs, Taken(bs, dateMin))
  }

  /** The dict after every interval, each given with its boundaries,
      latest first. */
  function MarkAll(recs: map<int, DateRec>, intervals: seq<(string, seq<int>)>, dateMin: int): map<int, DateRec>
    decreases |intervals|
  {
    if intervals == [] then recs
    else
      var last := intervals[|intervals| - 1];
      MarkInterval(MarkAll(recs, intervals[..|intervals| - 1], dateMin), last.0, last.1, dateMin)
  }

  /** The date ceiling: the latest end over the intervals with a
      boundary. */
  function MaxEnd(intervals: seq<(string, seq<int>)>): Option<int>
    decreases |intervals|
  {
    if intervals == [] then None
    else
      var m := MaxEnd(intervals[..|intervals| - 1]);
      var bs := intervals[|intervals| - 1].1;
      if bs != [] && (m.None? || m.value < bs[0]) then Some(bs[0]) else m
  }

  /** The ceiling is None exactly when no interval has a boundary, and
      otherwise the greatest end, which some interval has. */
  lemma {:induction false} MaxEndIff(intervals: seq<(string, seq<int>)>)
    ensures MaxEnd(intervals).None? <==> forall i :: 0 <= i < |intervals| ==> intervals[i].1 == []
    ensures MaxEnd(intervals).Some? ==>
              (exists i :: 0 <= i < |intervals| && intervals[i].1 != [] && intervals[i].1[0] == MaxEnd(intervals).value)
              && forall i :: 0 <= i < |intervals| && intervals[i].1 != [] ==> intervals[i].1[0] <= MaxEnd(intervals).value
    decreases |intervals|
  {
    if intervals != [] {
      var front := intervals[..|intervals| - 1];
      MaxEndIff(front);
      assert forall i :: 0 <= i < |front| ==> front[i] == intervals[i];
    }
  }

  lemma {:induction false} MarkBeginsAt(recs: map<int, DateRec>, name: string, bs: seq<int>, d: int)
    ensures At(MarkBegins(recs, name, bs), d) ==
              At(recs, d).(begin := At(recs, d).begin + (if d in bs then {name} else {}))
    ensures MarkBegins(recs, name, bs).Keys == recs.Keys + set x | x in bs
    decreases |bs|
  {
    if bs != [] {
      var front := bs[..|bs| - 1];
      MarkBeginsAt(recs, name, front, d);
      assert bs == front + [bs[|bs| - 1]];
      assert d in bs <==> d in front || d == bs[|bs| - 1];
      assert (set x | x in bs) == (set x | x in front) + {bs[|bs| - 1]};
    }
  }

  /** Recording one interval adds its name to END at its first boundary
      and to BEGIN at the other recorded ones, creates the entries of
      those dates, and changes nothing else. */
  lemma MarkIntervalAt(recs: map<int, DateRec>, name: string, bs: seq<int>, dateMin: int, d: int)
    ensures var n := Taken(bs, dateMin);
            var r := MarkInterval(recs, name, bs, dateMin);
            && At(r, d).del == At(recs, d).del && At(r, d).keep == At(recs, d).keep
            && At(r, d).end == At(recs, d).end + (if n > 0 && d == bs[0] then {name} else {})
            && At(r, d).begin == At(recs, d).begin + (if n > 1 && d in bs[1..n] then {name} else {})
            && r.Keys == recs.Keys + set x | x in bs[..n]
  {
    var n := Taken(bs, dateMin);
    TakenIff(bs, dateMin);
    if n > 0 {
      var e := AddEnd(recs, bs[0], name);
      MarkBeginsAt(e, name, bs[1..n], d);
      assert bs[..n] == [bs[0]] + bs[1..n];
      assert (set x | x in bs[..n]) == {bs[0]} + set x | x in bs[1..n];
    } else {
      assert (set x | x in bs[..n]) == {};
    }
  }

  /** No date has anything in KEEP yet, as before the sweep: backups are
      only ever filed under DEL. */
  ghost predicate NoneKept(recs: map<int, DateRec>) {
    forall d :: d in recs ==> recs[d].keep == map[]
  }

  /** Recording the boundaries of all the intervals leaves every date's
      DEL and KEEP as they were, so KEEP stays empty everywhere. */
  lemma {:induction false} MarkAllBackups(recs: map<int, DateRec>, intervals: seq<(string, seq<int>)>, dateMin: int, d: int)
    ensures At(MarkAll(recs, intervals, dateMin), d).del == At(recs, d).del
    ensures At(MarkAll(recs, intervals, dateMin), d).keep == At(recs, d).keep
    decreases |intervals|
  {
    if intervals != [] {
      var front := intervals[..|intervals| - 1];
      var last := intervals[|intervals| - 1];
      MarkAllBackups(recs, front, dateMin, d);
      MarkIntervalAt(MarkAll(recs, front, dateMin), last.0, last.1, dateMin, d);
    }
  }

  lemma NoneKeptMarkAll(recs: map<int, DateRec>, intervals: seq<(string, seq<int>)>, dateMin: int)
    requires NoneKept(recs)
    ensures NoneKept(MarkAll(recs, intervals, dateMin))
  {
    var r := MarkAll(recs, intervals, dateMin);
    forall d | d in r
      ensures r[d].keep == map[]
    {
      MarkAllBackups(recs, intervals, dateMin, d);
    }
  }

  // ---------------------------------------------------------------------
  // rsrcs_process: specification

  /** `intervals_parent_rsrcs`: for each open interval, the parents whose
      first backup in the current period has been seen. */
  type Open = map<string, set<PKey>>

  function ParentsOf(ks: set<RKey>): set<PKey> {
    set k | k in ks :: ParentOf(k)
  }

  /** The intervals or periods beginning now start with no parent seen. */
  function PeriodsOpened(open: Open, begin: set<string>): Open {
    open + map n | n in begin :: {}
  }

  /** The intervals ending now are dropped; `del` raises KeyError (None)
      for one that is not open. */
  function IntervalsEnded(open: Open, end: set<string>): Option<Open> {
    if end <= open.Keys then Some(open - end) else None
  }

  /** Every open interval has seen the parents `ps`. */
  function Recorded(open: Open, ps: set<PKey>): Open {
    map n | n in open :: open[n] + ps
  }

  /** Some open interval has not yet seen parent `p` in its period. */
  predicate Unseen(open: Open, p: PKey) {
    exists n :: n in open && p !in open[n]
  }

  /** The backups the sweep keeps of one date's DEL entries, in terms the
      iteration order does not affect: each kept one is a DEL entry whose
      parent some open interval has not seen, no two share a parent, and
      every such parent has one kept. */
  predicate KeepChoice(open: Open, del: map<RKey, Tags>, chosen: map<RKey, Tags>) {
    KeepChoiceOn(open, del, del.Keys, chosen)
  }

  /** The keep choice among the DEL entries of the backups `D`. */
  predicate KeepChoiceOn(open: Open, del: map<RKey, Tags>, D: set<RKey>, chosen: map<RKey, Tags>) {
    && (forall k :: k in chosen ==> k in D && k in del && chosen[k] == del[k] && Unseen(open, ParentOf(k)))
    && (forall k1, k2 :: k1 in chosen && k2 in chosen && ParentOf(k1) == ParentOf(k2) ==> k1 == k2)
    && (forall k :: k in D && Unseen(open, ParentOf(k)) ==> exists k' :: k' in chosen && ParentOf(k') == ParentOf(k))
  }

  /** The open intervals after the begins and ends of a date before the
      ceiling. */
  function Opened(open: Open, rec: DateRec): Option<Open> {
    IntervalsEnded(PeriodsOpened(open, rec.begin), rec.end)
  }

  /** The open intervals after date `d`; dates from the ceiling on leave
      them alone. */
  function Step(open: Open, rec: DateRec, d: int, intervalsEnd: int): Option<Open> {
    if d < intervalsEnd then
      match Opened(open, rec)
      case None => None
      case Some(o) => Some(Recorded(o, ParentsOf(rec.del.Keys)))
    else Some(open)
  }

  lemma Inhabited(s: set<int>)
    requires s != {}
    ensures exists x :: x in s
  {
    if forall x :: x !in s {
      assert false;
    }
  }

  ghost function MaxOf(s: set<int>): (m: int)
    requires s != {}
    ensures m in s && forall e :: e in s ==> e <= m
  {
    Inhabited(s);
    var x :| x in s;
    if s == {x} then x
    else
      var r := MaxOf(s - {x});
      assert forall e :: e in s ==> e == x || e in s - {x};
      if x < r then r else x
  }

  ghost function MinOf(s: set<int>): (m: int)
    requires s != {}
    ensures m in s && forall e :: e in s ==> m <= e
  {
    Inhabited(s);
    var x :| x in s;
    if s == {x} then x
    else
      var r := MinOf(s - {x});
      assert forall e :: e in s ==> e == x || e in s - {x};
      if r < x then r else x
  }

  /** The open intervals after the dates `S` of the dict, in ascending
      order; None once a date raised. */
  ghost function OpenOf(recs: map<int, DateRec>, S: set<int>, intervalsEnd: int): Option<Open>
    requires S <= recs.Keys
    decreases S
  {
    if S == {} then Some(map[])
    else
      var m := MaxOf(S);
      match OpenOf(recs, S - {m}, intervalsEnd)
      case None => None
      case Some(o) => Step(o, recs[m], m, intervalsEnd)
  }

  function Below(keys: set<int>, d: int): set<int> {
    set e | e in keys && e < d
  }

  /** What the sweep makes of one date's entry, given the open intervals
      before it: before the ceiling, the keep choice joins KEEP and is
      taken out of DEL; from the ceiling on, everything is kept. */
  ghost predicate Swept(before: DateRec, after: DateRec, open: Open, d: int, intervalsEnd: int) {
    && after.begin == before.begin && after.end == before.end
    && if d < intervalsEnd then
         Opened(open, before).Some? &&
         exists chosen :: KeepChoice(Opened(open, before).value, before.del, chosen)
                          && after.keep == before.keep + chosen && after.del == before.del - after.keep.Keys
       else after.keep == before.del && after.del == map[]
  }

  // ---------------------------------------------------------------------
  // rsrcs_process: the inner loops

  lemma PeriodsOpenedStep(open: Open, B: set<string>, b: string)
    ensures PeriodsOpened(open, B + {b}) == PeriodsOpened(open, B)[b := {}]
  {
  }

  lemma PeriodsOpenedNone(open: Open)
    ensures PeriodsOpened(open, {}) == open
  {
  }

  /** The loop over BEGIN. */
  method StartPeriods(open: Open, begin: set<string>) returns (r: Open)
    ensures r == PeriodsOpened(open, begin)
  {
    r := open;
    var todo := begin;
    ghost var started: set<string> := {};
    PeriodsOpenedNone(open);
    while todo != {}
      invariant started + todo == begin && started !! todo
      invariant r == PeriodsOpened(open, started)
      decreases |todo|
    {
      var b :| b in todo;
      PeriodsOpenedStep(open, started, b);
      r := r[b := {}];
      todo := todo - {b};
      started := started + {b};
    }
  }

  /** The loop over END; None where `del` raises. */
  method EndIntervals(open: Open, end: set<string>) returns (r: Option<Open>)
    ensures r == IntervalsEnded(open, end)
  {
    var cur := open;
    var todo := end;
    while todo != {}
      invariant todo <= end
      invariant end - todo <= open.Keys
      invariant cur == open - (end - todo)
      decreases |todo|
    {
      var n :| n in todo;
      if n !in cur {
        return None;
      }
      ghost var ended := end - todo;
      cur := cur - {n};
      todo := todo - {n};
      assert end - todo == ended + {n};
    }
    assert end - todo == end;
    return Some(cur);
  }

  /** One open interval that has not seen a parent makes it unseen, and
      the parents just recorded are seen by all. */
  lemma RecordedUnseen(open: Open, ps: set<PKey>, p: PKey)
    ensures Unseen(Recorded(open, ps), p) <==> Unseen(open, p) && p !in ps
  {
    var r := Recorded(open, ps);
    if Unseen(open, p) && p !in ps {
      var n :| n in open && p !in open[n];
      assert n in r && p !in r[n];
    }
  }

  lemma RecordedTwice(open: Open, ps: set<PKey>, p: PKey)
    ensures Recorded(Recorded(open, ps), {p}) == Recorded(open, ps + {p})
  {
    var a, b := Recorded(Recorded(open, ps), {p}), Recorded(open, ps + {p});
    assert a.Keys == b.Keys;
    forall n | n in a
      ensures a[n] == b[n]
    {
      assert a[n] == open[n] + ps + {p};
    }
  }

  lemma ParentsOfAdd(ks: set<RKey>, k: RKey)
    ensures ParentsOf(ks + {k}) == ParentsOf(ks) + {ParentOf(k)}
  {
  }

  /** The loop over the open intervals for one backup `k` of parent `p`:
      every interval records `p`, and the first that lacked it keeps
      `k`. */
  method RecordParent(r0: Open, p: PKey, keep0: map<RKey, Tags>, k: RKey, tags: Tags) returns (r: Open, keep: map<RKey, Tags>)
    ensures r == Recorded(r0, {p})
    ensures keep == if Unseen(r0, p) then keep0[k := tags] else keep0
  {
    r := r0;
    keep := keep0;
    var notYetRetained := true;
    var names := r.Keys;
    while names != {}
      invariant names <= r0.Keys && r.Keys == r0.Keys
      invariant forall n :: n in r ==> r[n] == if n in names then r0[n] else r0[n] + {p}
      invariant notYetRetained <==> forall n :: n in r0 && n !in names ==> p in r0[n]
      invariant keep == if notYetRetained then keep0 else keep0[k := tags]
      decreases |names|
    {
      var n :| n in names;
      if p !in r[n] {
        r := r[n := r[n] + {p}];
        if notYetRetained {
          keep := keep[k := tags];
          notYetRetained := false;
        }
      }
      names := names - {n};
    }
    if Unseen(r0, p) {
      var n :| n in r0 && p !in r0[n];
      assert !notYetRetained;
    } else {
      assert forall n :: n in r0 ==> p in r0[n];
      assert notYetRetained;
    }
    assert r.Keys == Recorded(r0, {p}).Keys;
    assert forall n :: n in r ==> r[n] == r0[n] + {p};
  }

  lemma RecordedNone(open: Open)
    ensures Recorded(open, {}) == open
  {
    assert forall n :: n in open ==> open[n] + {} == open[n];
  }

  /** Distinct kept parents stay distinct when a backup of a parent no
      earlier backup has joins. */
  lemma KeptParentsDistinct(D: set<RKey>, keep: map<RKey, Tags>, k: RKey, tags: Tags)
    requires keep.Keys <= D && ParentOf(k) !in ParentsOf(D)
    requires forall k1, k2 :: k1 in keep && k2 in keep && ParentOf(k1) == ParentOf(k2) ==> k1 == k2
    ensures forall k1, k2 :: k1 in keep[k := tags] && k2 in keep[k := tags] && ParentOf(k1) == ParentOf(k2) ==> k1 == k2
  {
    forall k1 | k1 in keep
      ensures ParentOf(k1) != ParentOf(k)
    {
      assert ParentOf(k1) in ParentsOf(D);
    }
  }

  lemma KeptFromDel(open: Open, del: map<RKey, Tags>, D: set<RKey>, keep: map<RKey, Tags>, k: RKey)
    requires k in del && Unseen(open, ParentOf(k))
    requires forall k1 :: k1 in keep ==> k1 in D && k1 in del && keep[k1] == del[k1] && Unseen(open, ParentOf(k1))
    ensures forall k1 :: k1 in keep[k := del[k]] ==>
              k1 in D + {k} && k1 in del && keep[k := del[k]][k1] == del[k1] && Unseen(open, ParentOf(k1))
  {
  }

  /** Every unseen parent keeps a backup once the new one joins. */
  lemma KeptCovers(open: Open, D: set<RKey>, keep: map<RKey, Tags>, k: RKey, tags: Tags)
    requires forall k1 :: k1 in D && Unseen(open, ParentOf(k1)) ==> exists k' :: k' in keep && ParentOf(k') == ParentOf(k1)
    ensures forall k1 :: k1 in D + {k} && Unseen(open, ParentOf(k1)) ==>
              exists k' :: k' in keep[k := tags] && ParentOf(k') == ParentOf(k1)
  {
    forall k1 | k1 in D + {k} && Unseen(open, ParentOf(k1))
      ensures exists k' :: k' in keep[k := tags] && ParentOf(k') == ParentOf(k1)
    {
      if k1 != k {
        var k' :| k' in keep && ParentOf(k') == ParentOf(k1);
        assert k' in keep[k := tags];
      } else {
        assert k in keep[k := tags];
      }
    }
  }

  /** A backup whose parent some open interval has not seen, and no
      earlier backup has, is kept. */
  lemma KeepChoiceKept(open: Open, del: map<RKey, Tags>, D: set<RKey>, keep: map<RKey, Tags>, k: RKey)
    requires D <= del.Keys && k in del && k !in D
    requires KeepChoiceOn(open, del, D, keep)
    requires Unseen(open, ParentOf(k)) && ParentOf(k) !in ParentsOf(D)
    ensures KeepChoiceOn(open, del, D + {k}, keep[k := del[k]])
  {
    KeptFromDel(open, del, D, keep, k);
    KeptParentsDistinct(D, keep, k, del[k]);
    KeptCovers(open, D, keep, k, del[k]);
  }

  /** Any other backup is not kept. */
  lemma KeepChoiceSkipped(open: Open, del: map<RKey, Tags>, D: set<RKey>, keep: map<RKey, Tags>, k: RKey)
    requires D <= del.Keys && k in del && k !in D
    requires KeepChoiceOn(open, del, D, keep)
    requires !(Unseen(open, ParentOf(k)) && ParentOf(k) !in ParentsOf(D))
    ensures KeepChoiceOn(open, del, D + {k}, keep)
  {
    forall k1 | k1 in D + {k} && Unseen(open, ParentOf(k1))
      ensures exists k' :: k' in keep && ParentOf(k') == ParentOf(k1)
    {
      if k1 == k {
        var k0 :| k0 in D && ParentOf(k0) == ParentOf(k);
      }
    }
  }

  /** One more backup keeps the choice valid: it is kept when some open
      interval has not seen its parent, which then no earlier backup has. */
  lemma KeepChoiceStep(open: Open, del: map<RKey, Tags>, D: set<RKey>, keep: map<RKey, Tags>, k: RKey)
    requires D <= del.Keys && k in del && k !in D
    requires KeepChoiceOn(open, del, D, keep)
    ensures var seen := Recorded(open, ParentsOf(D));
            var keep' := if Unseen(seen, ParentOf(k)) then keep[k := del[k]] else keep;
            KeepChoiceOn(open, del, D + {k}, keep')
  {
    RecordedUnseen(open, ParentsOf(D), ParentOf(k));
    if Unseen(open, ParentOf(k)) && ParentOf(k) !in ParentsOf(D) {
      KeepChoiceKept(open, del, D, keep, k);
    } else {
      KeepChoiceSkipped(open, del, D, keep, k);
    }
  }

  /** The loop over DEL: each backup goes to every open interval's set of
      seen parents, and is kept if it was the first to be missing from
      one of them. */
  method RetainFirsts(open: Open, del: map<RKey, Tags>) returns (r: Open, keep: map<RKey, Tags>)
    ensures r == Recorded(open, ParentsOf(del.Keys))
    ensures KeepChoice(open, del, keep)
  {
    r := open;
    keep := map[];
    var todo := del.Keys;
    ghost var done: set<RKey> := {};
    RecordedNone(open);
    assert ParentsOf({}) == {};
    while todo != {}
      invariant done + todo == del.Keys && done !! todo
      invariant r == Recorded(open, ParentsOf(done))
      invariant KeepChoiceOn(open, del, done, keep)
      decreases |todo|
    {
      var k :| k in todo;
      KeepChoiceStep(open, del, done, keep, k);
      RecordedTwice(open, ParentsOf(done), ParentOf(k));
      ParentsOfAdd(done, k);
      RecordedUnseen(open, ParentsOf(done), ParentOf(k));
      r, keep := RecordParent(r, ParentOf(k), keep, k, del[k]);
      todo := todo - {k};
      done := done + {k};
    }
  }

  /** The loop that takes the kept backups out of DEL. */
  method DropKept(del: map<RKey, Tags>, kept: set<RKey>) returns (r: map<RKey, Tags>)
    ensures r == del - kept
  {
    r := del;
    var todo := kept;
    while todo != {}
      invariant todo <= kept
      invariant r == del - (kept - todo)
      decreases |todo|
    {
      var k :| k in todo;
      r := r - {k};
      todo := todo - {k};
    }
  }

  /** What the sweep does to the entry of date `d`: if the dates before
      it and its own begins and ends passed, it is swept; otherwise it is
      left alone. */
  ghost predicate DateOutcome(recs0: map<int, DateRec>, after: DateRec, d: int, intervalsEnd: int)
    requires d in recs0
  {
    var o := OpenOf(recs0, Below(recs0.Keys, d), intervalsEnd);
    if o.Some? && Step(o.value, recs0[d], d, intervalsEnd).Some? then Swept(recs0[d], after, o.value, d, intervalsEnd)
    else after == recs0[d]
  }

  lemma MaxOfAdd(S: set<int>, d: int)
    requires forall e :: e in S ==> e < d
    ensures MaxOf(S + {d}) == d && (S + {d}) - {d} == S
  {
  }

  /** Processing one more date, later than the others. */
  lemma OpenOfAdd(recs: map<int, DateRec>, S: set<int>, d: int, intervalsEnd: int)
    requires S <= recs.Keys && d in recs
    requires forall e :: e in S ==> e < d
    ensures OpenOf(recs, S + {d}, intervalsEnd) ==
              match OpenOf(recs, S, intervalsEnd)
              case None => None
              case Some(o) => Step(o, recs[d], d, intervalsEnd)
  {
    MaxOfAdd(S, d);
  }

  /** Once a date has raised, every later set of dates raises. */
  lemma {:induction false} OpenOfNoneUp(recs: map<int, DateRec>, S: set<int>, T: set<int>, intervalsEnd: int)
    requires S <= T <= recs.Keys
    requires forall e, f :: e in T - S && f in S ==> f < e
    requires OpenOf(recs, S, intervalsEnd) == None
    ensures OpenOf(recs, T, intervalsEnd) == None
    decreases T
  {
    if T != S {
      assert S != {};
      var m := MaxOf(T);
      assert m !in S by {
        assert T - S != {} by {
          if T - S == {} {
            forall x | x in T
              ensures x in S
            {
              assert x !in T - S;
            }
            assert false;
          }
        }
        Inhabited(T - S);
        var e :| e in T - S;
        if m in S {
          assert false;
        }
      }
      assert S <= T - {m};
      assert forall e, f :: e in (T - {m}) - S && f in S ==> f < e by {
        assert (T - {m}) - S <= T - S;
      }
      OpenOfNoneUp(recs, S, T - {m}, intervalsEnd);
    }
  }

  lemma BelowIs(keys: set<int>, done: set<int>, todo: set<int>, d: int)
    requires done + todo == keys && done !! todo && d in todo
    requires forall e, f :: e in done && f in todo ==> e < f
    requires forall e :: e in todo ==> d <= e
    ensures Below(keys, d) == done
  {
  }

  /** One date of `rsrcs_process`; `ok` is false where `del` raises. */
  method SweepDate(open: Open, rec: DateRec, d: int, intervalsEnd: int) returns (open': Open, rec': DateRec, ok: bool)
    ensures ok <==> Step(open, rec, d, intervalsEnd).Some?
    ensures ok ==> open' == Step(open, rec, d, intervalsEnd).value && Swept(rec, rec', open, d, intervalsEnd)
  {
    open', rec', ok := open, rec, true;
    if d < intervalsEnd {
      var started := StartPeriods(open, rec.begin);
      var ended := EndIntervals(started, rec.end);
      if ended.None? {
        ok := false;
        return;
      }
      var keep;
      open', keep := RetainFirsts(ended.value, rec.del);
      var newKeep := rec.keep + keep;
      var newDel := DropKept(rec.del, newKeep.Keys);
      rec' := rec.(keep := newKeep, del := newDel);
    } else {
      rec' := rec.(keep := rec.del, del := map[]);
    }
  }

  /** A swept date meets its outcome. */
  lemma SweptOutcome(recs0: map<int, DateRec>, done: set<int>, todo: set<int>, d: int, intervalsEnd: int,
                     open: Open, after: DateRec)
    requires done + todo == recs0.Keys && done !! todo && d in todo
    requires forall e, f :: e in done && f in todo ==> e < f
    requires forall e :: e in todo ==> d <= e
    requires OpenOf(recs0, done, intervalsEnd) == Some(open)
    requires Step(open, recs0[d], d, intervalsEnd).Some? && Swept(recs0[d], after, open, d, intervalsEnd)
    ensures DateOutcome(recs0, after, d, intervalsEnd)
  {
    BelowIs(recs0.Keys, done, todo, d);
  }

  /** Where date `d` raises, it and every later date keep their entries,
      and the sweep as a whole raised. */
  lemma SweepRaised(recs0: map<int, DateRec>, done: set<int>, todo: set<int>, d: int, intervalsEnd: int, open: Open)
    requires done + todo == recs0.Keys && done !! todo && d in todo
    requires forall e, f :: e in done && f in todo ==> e < f
    requires forall e :: e in todo ==> d <= e
    requires OpenOf(recs0, done, intervalsEnd) == Some(open)
    requires Step(open, recs0[d], d, intervalsEnd).None?
    ensures forall f :: f in todo ==> DateOutcome(recs0, recs0[f], f, intervalsEnd)
    ensures OpenOf(recs0, recs0.Keys, intervalsEnd).None?
  {
    OpenOfAdd(recs0, done, d, intervalsEnd);
    BelowIs(recs0.Keys, done, todo, d);
    forall f | f in todo
      ensures DateOutcome(recs0, recs0[f], f, intervalsEnd)
    {
      if f != d {
        BelowLater(recs0.Keys, done, todo, d, f);
        OpenOfNoneUp(recs0, done + {d}, Below(recs0.Keys, f), intervalsEnd);
        OutcomeUntouched(recs0, f, intervalsEnd);
      }
    }
    AllLater(recs0.Keys, done, todo, d);
    OpenOfNoneUp(recs0, done + {d}, recs0.Keys, intervalsEnd);
  }

  /** All dates but those done and `d` come after them. */
  lemma AllLater(keys: set<int>, done: set<int>, todo: set<int>, d: int)
    requires done + todo == keys && done !! todo && d in todo
    requires forall e, g :: e in done && g in todo ==> e < g
    requires forall e :: e in todo ==> d <= e
    ensures done + {d} <= keys
    ensures forall e, g :: e in keys - (done + {d}) && g in done + {d} ==> g < e
  {
    forall e, g | e in keys - (done + {d}) && g in done + {d}
      ensures g < e
    {
      assert e in todo && e != d;
    }
  }

  /** The dates before a later `f` hold those done, `d`, and dates after `d`. */
  lemma BelowLater(keys: set<int>, done: set<int>, todo: set<int>, d: int, f: int)
    requires done + todo == keys && done !! todo && d in todo && f in todo && d != f
    requires forall e, g :: e in done && g in todo ==> e < g
    requires forall e :: e in todo ==> d <= e
    ensures done + {d} <= Below(keys, f) <= keys
    ensures forall e, g :: e in Below(keys, f) - (done + {d}) && g in done + {d} ==> g < e
  {
  }

  /** A date the sweep does not reach keeps its entry. */
  lemma OutcomeUntouched(recs0: map<int, DateRec>, f: int, intervalsEnd: int)
    requires f in recs0 && OpenOf(recs0, Below(recs0.Keys, f), intervalsEnd).None?
    ensures DateOutcome(recs0, recs0[f], f, intervalsEnd)
  {
  }

  /** What the sweep keeps between dates: the dates `done` all come
      before the dates `todo`, the done ones met their outcome, the others
      are as they were, and `open` is what the done ones left open. */
  ghost predicate SweepInv(recs0: map<int, DateRec>, recs: map<int, DateRec>, done: set<int>, todo: set<int>,
                           open: Open, intervalsEnd: int)
  {
    && done + todo == recs0.Keys && done !! todo
    && (forall e, f :: e in done && f in todo ==> e < f)
    && recs.Keys == recs0.Keys
    && OpenOf(recs0, done, intervalsEnd) == Some(open)
    && (forall d :: d in done ==> DateOutcome(recs0, recs[d], d, intervalsEnd))
    && (forall d :: d in todo ==> recs[d] == recs0[d])
  }

  /** Sweeping the earliest date left keeps `SweepInv`. */
  lemma SweepInvNext(recs0: map<int, DateRec>, recs: map<int, DateRec>, done: set<int>, todo: set<int>,
                     open: Open, intervalsEnd: int, d: int, open': Open, rec': DateRec)
    requires SweepInv(recs0, recs, done, todo, open, intervalsEnd)
    requires d in todo && forall e :: e in todo ==> d <= e
    requires Step(open, recs0[d], d, intervalsEnd) == Some(open')
    requires Swept(recs0[d], rec', open, d, intervalsEnd)
    ensures SweepInv(recs0, recs[d := rec'], done + {d}, todo - {d}, open', intervalsEnd)
  {
    var recs' := recs[d := rec'];
    NextOrdered(recs0.Keys, done, todo, d);
    assert recs'.Keys == recs0.Keys;
    OpenOfAdd(recs0, done, d, intervalsEnd);
    assert OpenOf(recs0, done + {d}, intervalsEnd) == Some(open');
    SweptOutcome(recs0, done, todo, d, intervalsEnd, open, rec');
    NextOutcomes(recs0, recs, done, d, intervalsEnd, rec');
    NextUntouched(recs0, recs, todo, d, rec');
  }

  lemma NextOrdered(keys: set<int>, done: set<int>, todo: set<int>, d: int)
    requires done + todo == keys && done !! todo && d in todo
    requires forall e, f :: e in done && f in todo ==> e < f
    requires forall e :: e in todo ==> d <= e
    ensures (done + {d}) + (todo - {d}) == keys && (done + {d}) !! (todo - {d})
    ensures forall e, f :: e in done + {d} && f in todo - {d} ==> e < f
  {
  }

  lemma NextOutcomes(recs0: map<int, DateRec>, recs: map<int, DateRec>, done: set<int>, d: int, intervalsEnd: int,
                     rec': DateRec)
    requires done <= recs.Keys && d !in done
    requires forall e :: e in done ==> e in recs0 && DateOutcome(recs0, recs[e], e, intervalsEnd)
    requires d in recs0 && DateOutcome(recs0, rec', d, intervalsEnd)
    ensures forall e :: e in done + {d} ==> e in recs[d := rec'] && DateOutcome(recs0, recs[d := rec'][e], e, intervalsEnd)
  {
    forall e | e in done + {d}
      ensures e in recs[d := rec'] && DateOutcome(recs0, recs[d := rec'][e], e, intervalsEnd)
    {
      if e != d {
        assert recs[d := rec'][e] == recs[e];
      }
    }
  }

  lemma NextUntouched(recs0: map<int, DateRec>, recs: map<int, DateRec>, todo: set<int>, d: int, rec': DateRec)
    requires forall e :: e in todo ==> e in recs && e in recs0 && recs[e] == recs0[e]
    ensures forall e :: e in todo - {d} ==> recs[d := rec'][e] == recs0[e]
  {
  }

  // ---------------------------------------------------------------------
  // rsrcs_process: what one date ends with

  /** A date swept with an empty KEEP ends with KEEP and DEL splitting its
      DEL entries between them, with their tags. */
  lemma SweptPartition(before: DateRec, after: DateRec, open: Open, d: int, intervalsEnd: int)
    requires before.keep == map[] && Swept(before, after, open, d, intervalsEnd)
    ensures after.keep.Keys !! after.del.Keys
    ensures forall k :: k in before.del <==> k in after.keep || k in after.del
    ensures forall k :: k in after.keep ==> after.keep[k] == before.del[k]
    ensures forall k :: k in after.del ==> after.del[k] == before.del[k]
  {
    if d < intervalsEnd {
      SweptSub(before, after, open, d, intervalsEnd);
      KeptSplit(before.del, after.keep, after.del);
    } else {
      KeptSplit(before.del, after.keep, after.del);
    }
  }

  lemma SweptSub(before: DateRec, after: DateRec, open: Open, d: int, intervalsEnd: int)
    requires before.keep == map[] && Swept(before, after, open, d, intervalsEnd) && d < intervalsEnd
    ensures forall k :: k in after.keep ==> k in before.del && after.keep[k] == before.del[k]
    ensures after.del == before.del - after.keep.Keys
  {
    SweptKept(before, after, open, d, intervalsEnd);
  }

  /** Taking a sub-map out of a map splits it in two. */
  lemma KeptSplit(del: map<RKey, Tags>, keep: map<RKey, Tags>, rest: map<RKey, Tags>)
    requires forall k :: k in keep ==> k in del && keep[k] == del[k]
    requires rest == del - keep.Keys
    ensures keep.Keys !! rest.Keys
    ensures forall k :: k in del <==> k in keep || k in rest
    ensures forall k :: k in rest ==> rest[k] == del[k]
  {
  }

  lemma EmptyUnion(m: map<RKey, Tags>)
    ensures map[] + m == m
  {
  }

  /** What a date swept before the ceiling with an empty KEEP keeps. */
  lemma SweptKept(before: DateRec, after: DateRec, open: Open, d: int, intervalsEnd: int)
    requires before.keep == map[] && Swept(before, after, open, d, intervalsEnd) && d < intervalsEnd
    ensures KeepChoice(Opened(open, before).value, before.del, after.keep)
  {
    var chosen :| KeepChoice(Opened(open, before).value, before.del, chosen)
                  && after.keep == before.keep + chosen && after.del == before.del - after.keep.Keys;
    EmptyUnion(chosen);
  }

  /** Whatever the sweep did to a date that started with an empty KEEP,
      KEEP and DEL split the original DEL entries between them, with their
      tags: nothing is lost or duplicated. Its BEGIN and END are as they
      were. */
  lemma OutcomePartition(recs0: map<int, DateRec>, after: DateRec, d: int, intervalsEnd: int)
    requires d in recs0 && recs0[d].keep == map[] && DateOutcome(recs0, after, d, intervalsEnd)
    ensures after.keep.Keys !! after.del.Keys
    ensures forall k :: k in recs0[d].del <==> k in after.keep || k in after.del
    ensures forall k :: k in after.keep ==> after.keep[k] == recs0[d].del[k]
    ensures forall k :: k in after.del ==> after.del[k] == recs0[d].del[k]
    ensures after.begin == recs0[d].begin && after.end == recs0[d].end
  {
    var o := OpenOf(recs0, Below(recs0.Keys, d), intervalsEnd);
    if o.Some? && Step(o.value, recs0[d], d, intervalsEnd).Some? {
      SweptPartition(recs0[d], after, o.value, d, intervalsEnd);
    }
  }

  /** The sweep keeps everything from the ceiling on. */
  lemma OutcomeCeiling(recs0: map<int, DateRec>, after: DateRec, d: int, intervalsEnd: int)
    requires d in recs0 && DateOutcome(recs0, after, d, intervalsEnd)
    requires d >= intervalsEnd && OpenOf(recs0, Below(recs0.Keys, d), intervalsEnd).Some?
    ensures after.keep == recs0[d].del && after.del == map[]
  {
  }

  /** Before the ceiling, a swept date keeps at most one backup per parent,
      keeps one only if some open interval period had not seen its
      parent, and keeps one for every parent of a DEL backup that some
      open interval period had not seen. */
  lemma OutcomeKept(recs0: map<int, DateRec>, after: DateRec, d: int, intervalsEnd: int, open: Open)
    requires d in recs0 && recs0[d].keep == map[] && DateOutcome(recs0, after, d, intervalsEnd)
    requires d < intervalsEnd
    requires OpenOf(recs0, Below(recs0.Keys, d), intervalsEnd).Some?
    requires Opened(OpenOf(recs0, Below(recs0.Keys, d), intervalsEnd).value, recs0[d]) == Some(open)
    ensures forall k1, k2 :: k1 in after.keep && k2 in after.keep && ParentOf(k1) == ParentOf(k2) ==> k1 == k2
    ensures forall k :: k in after.keep ==> k in recs0[d].del && Unseen(open, ParentOf(k))
    ensures forall k :: k in recs0[d].del && Unseen(open, ParentOf(k)) ==>
              exists k' :: k' in after.keep && ParentOf(k') == ParentOf(k)
  {
    var o := OpenOf(recs0, Below(recs0.Keys, d), intervalsEnd).value;
    SweptKept(recs0[d], after, o, d, intervalsEnd);
  }

  /** Once a date raises, the dates after it are left as they were. */
  lemma OutcomeRaised(recs0: map<int, DateRec>, after: DateRec, d: int, intervalsEnd: int)
    requires d in recs0 && DateOutcome(recs0, after, d, intervalsEnd)
    requires OpenOf(recs0, Below(recs0.Keys, d), intervalsEnd).None?
    ensures after == recs0[d]
  {
  }

  // ---------------------------------------------------------------------
  // rsrcs_tag

  /** A call `rsrc_tag_op` makes with `TAGS_DICT_DEL`: `add` tags a backup
      for deletion, `del` takes the tag off. */
  datatype TagCall = TagCall(date: int, key: RKey, op: string)

  /** The calls `rsrcs_tag` should make: `add` for a DEL backup without
      the deletion tag, `del` for a KEEP backup with it. */
  predicate Wanted(recs: map<int, DateRec>, c: TagCall) {
    && c.date in recs
    && ((c.op == "add" && c.key in recs[c.date].del && TagDel !in recs[c.date].del[c.key])
        || (c.op == "del" && c.key in recs[c.date].keep && TagDel in recs[c.date].keep[c.key]))
  }

  predicate Distinct(calls: seq<TagCall>) {
    forall i, j :: 0 <= i < j < |calls| ==> calls[i] != calls[j]
  }

  lemma DistinctJoin(a: seq<TagCall>, b: seq<TagCall>)
    requires Distinct(a) && Distinct(b)
    requires forall i, j :: 0 <= i < |a| && 0 <= j < |b| ==> a[i] != b[j]
    ensures Distinct(a + b)
  {
  }

  /** One `for` over the items of `items`: a call `op` for each backup
      whose tags have the deletion tag exactly when `has`. */
  method CallsFor(d: int, items: map<RKey, Tags>, op: string, has: bool) returns (calls: seq<TagCall>)
    ensures forall i :: 0 <= i < |calls| ==>
              calls[i].date == d && calls[i].op == op && calls[i].key in items && (TagDel in items[calls[i].key] <==> has)
    ensures forall k :: k in items && (TagDel in items[k] <==> has) ==> TagCall(d, k, op) in calls
    ensures Distinct(calls)
  {
    calls := [];
    var todo := items.Keys;
    while todo != {}
      invariant todo <= items.Keys
      invariant forall i :: 0 <= i < |calls| ==>
                  calls[i].date == d && calls[i].op == op && calls[i].key in items && calls[i].key !in todo
                  && (TagDel in items[calls[i].key] <==> has)
      invariant forall k :: k in items && k !in todo && (TagDel in items[k] <==> has) ==> TagCall(d, k, op) in calls
      invariant Distinct(calls)
      decreases |todo|
    {
      var k :| k in todo;
      if TagDel in items[k] <==> has {
        calls := calls + [TagCall(d, k, op)];
      }
      todo := todo - {k};
    }
  }

  /** The calls for one date are the ones wanted at that date. */
  lemma WantedAt(recs: map<int, DateRec>, d: int, adds: seq<TagCall>, dels: seq<TagCall>)
    requires d in recs
    requires forall i :: 0 <= i < |adds| ==>
               adds[i].date == d && adds[i].op == "add" && adds[i].key in recs[d].del && (TagDel in recs[d].del[adds[i].key] <==> false)
    requires forall k :: k in recs[d].del && (TagDel in recs[d].del[k] <==> false) ==> TagCall(d, k, "add") in adds
    requires forall i :: 0 <= i < |dels| ==>
               dels[i].date == d && dels[i].op == "del" && dels[i].key in recs[d].keep && (TagDel in recs[d].keep[dels[i].key] <==> true)
    requires forall k :: k in recs[d].keep && (TagDel in recs[d].keep[k] <==> true) ==> TagCall(d, k, "del") in dels
    ensures forall i :: 0 <= i < |adds + dels| ==> Wanted(recs, (adds + dels)[i]) && (adds + dels)[i].date == d
    ensures forall c :: Wanted(recs, c) && c.date == d ==> c in adds + dels
  {
  }

  /** Once the sweep has split a date's backups between KEEP and DEL, a
      backup gets at most one call, and the call passes `rsrc_tag_op`'s
      check when the backup has an ID. */
  lemma WantedOnce(recs: map<int, DateRec>, c1: TagCall, c2: TagCall)
    requires Wanted(recs, c1) && Wanted(recs, c2) && c1.date == c2.date && c1.key == c2.key
    requires recs[c1.date].keep.Keys !! recs[c1.date].del.Keys
    ensures c1 == c2
    ensures c1.key.rsrcId != "" ==> TagOpCheck(c1.key.rsrcId, c1.op, Some(TagsDictDel)) == Ok(c1.op)
  {
    if c1.key.rsrcId != "" {
      RsrcsTagCallsPass(c1.key.rsrcId);
    }
  }

  // ---------------------------------------------------------------------
  // The master dict

  /** The master dict, the defaultdict that maps a date to its entry. */
  class Ledger {
    var recs: map<int, DateRec>

    constructor ()
      ensures recs == map[]
    {
      recs := map[];
    }

    /** The inner loop of `intervals_process`: one interval's boundaries
        are recorded, latest first, up to and including the first
        beginning before `dateMin`. */
    method IntervalProcess(name: string, bs: seq<int>, dateMin: int) returns (intervalEnd: Option<int>)
      modifies this
      ensures recs == MarkInterval(old(recs), name, bs, dateMin)
      ensures intervalEnd == if bs == [] then None else Some(bs[0])
    {
      intervalEnd := None;
      var j := 0;
      while j < |bs|
        invariant 0 <= j <= |bs|
        invariant recs == MarkPrefix(old(recs), name, bs, j)
        invariant j == 0 <==> intervalEnd.None?
        invariant j > 0 ==> intervalEnd == Some(bs[0]) && TakenFrom(bs, dateMin, j) == Taken(bs, dateMin)
      {
        var boundary := bs[j];
        if intervalEnd.None? {
          intervalEnd := Some(boundary);
          recs := AddEnd(recs, boundary, name);
        } else {
          assert bs[1..j + 1] == bs[1..j] + [boundary];
          recs := AddBegin(recs, boundary, name);
          if boundary < dateMin {
            j := j + 1;
            break;
          }
        }
        j := j + 1;
      }
    }

    /** `intervals_process`: each interval comes with the boundaries its
        generator yields, latest first. Without a `dateMin` (no backup
        found), nothing is recorded. */
    method IntervalsProcess(intervals: seq<(string, seq<int>)>, dateMin: Option<int>) returns (intervalsEnd: Option<int>)
      modifies this
      ensures dateMin.None? ==> recs == old(recs) && intervalsEnd == None
      ensures dateMin.Some? ==> recs == MarkAll(old(recs), intervals, dateMin.value) && intervalsEnd == MaxEnd(intervals)
    {
      intervalsEnd := None;
      if dateMin.Some? {
        var k := 0;
        while k < |intervals|
          invariant 0 <= k <= |intervals|
          invariant recs == MarkAll(old(recs), intervals[..k], dateMin.value)
          invariant intervalsEnd == MaxEnd(intervals[..k])
        {
          var (name, bs) := intervals[k];
          var intervalEnd := IntervalProcess(name, bs, dateMin.value);
          assert intervals[..k + 1][..k] == intervals[..k];
          if intervalEnd.Some? && (intervalsEnd.None? || intervalsEnd.value < intervalEnd.value) {
            intervalsEnd := intervalEnd;
          }
          k := k + 1;
        }
        assert intervals[..k] == intervals;
      }
    }

    /** The filing of a described backup, under DEL at its normalised
        creation date; the defaultdict creates the entry of a new date. */
    method FileBackup(createDate: int, k: RKey, tags: Tags)
      modifies this
      ensures recs == old(recs)[createDate := At(old(recs), createDate).(del := At(old(recs), createDate).del[k := tags])]
    {
      var rec := At(recs, createDate);
      recs := recs[createDate := rec.(del := rec.del[k := tags])];
    }

    /** `rsrcs_process`: the dates in ascending order, the open intervals
        carried from one to the next. Each entry before the ceiling keeps
        the first backup of each parent unseen in an open interval period
        and leaves the rest in DEL; each from the ceiling on keeps all.
        The result is None, or the KeyError `del` raises for an interval
        ending that is not open, after which nothing more is swept. */
    method RsrcsProcess(intervalsEnd: int) returns (err: Option<Error>)
      modifies this
      ensures recs.Keys == old(recs).Keys
      ensures forall d :: d in old(recs) ==> DateOutcome(old(recs), recs[d], d, intervalsEnd)
      ensures err.None? <==> OpenOf(old(recs), old(recs).Keys, intervalsEnd).Some?
      ensures err.Some? ==> err.value == KeyError("rsrcs_process")
    {
      ghost var recs0 := recs;
      var open: Open := map[];
      var todo := recs.Keys;
      ghost var done: set<int> := {};
      err := None;
      while todo != {}
        invariant SweepInv(recs0, recs, done, todo, open, intervalsEnd)
        decreases |todo|
      {
        ghost var least := MinOf(todo);
        var d :| d in todo && forall e :: e in todo ==> d <= e;
        var rec := recs[d];
        var open', rec', ok := SweepDate(open, rec, d, intervalsEnd);
        if !ok {
          SweepRaised(recs0, done, todo, d, intervalsEnd, open);
          err := Some(KeyError("rsrcs_process"));
          return;
        }
        SweepInvNext(recs0, recs, done, todo, open, intervalsEnd, d, open', rec');
        open := open';
        recs := recs[d := rec'];
        todo := todo - {d};
        done := done + {d};
      }
      assert done == recs0.Keys;
    }

    /** `rsrcs_tag`: the tagging calls, for every date in the dict's
        order, the DEL backups first, then the KEEP ones. */
    method RsrcsTag() returns (calls: seq<TagCall>)
      ensures forall i :: 0 <= i < |calls| ==> Wanted(recs, calls[i])
      ensures forall c :: Wanted(recs, c) ==> c in calls
      ensures Distinct(calls)
    {
      calls := [];
      var todo := recs.Keys;
      while todo != {}
        invariant todo <= recs.Keys
        invariant forall i :: 0 <= i < |calls| ==> Wanted(recs, calls[i]) && calls[i].date !in todo
        invariant forall c :: Wanted(recs, c) && c.date !in todo ==> c in calls
        invariant Distinct(calls)
        decreases |todo|
      {
        Inhabited(todo);
        var d :| d in todo;
        var adds := CallsFor(d, recs[d].del, "add", false);
        var dels := CallsFor(d, recs[d].keep, "del", true);
        DistinctJoin(adds, dels);
        DistinctJoin(calls, adds + dels);
        WantedAt(recs, d, adds, dels);
        calls := calls + (adds + dels);
        todo := todo - {d};
      }
    }
  }
}
