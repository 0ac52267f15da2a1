/** Which operation a parent resource (an EC2 instance or volume, an RDS
    database instance) is due for: the tag keys, the per-type operation
    tables, the `params_tags` reference built by `rsrcs_get`, and the
    tag-by-tag decision of `rsrc_process`, in both revisions of the
    scheduler. */
module Operations {
  import opened Wrappers
  import opened Text
  import opened Schedule

  // ---------------------------------------------------------------------
  // Tag keys

  /** A tag as returned by the AWS APIs, `{"Key": ..., "Value": ...}`. */
  datatype Tag = Tag(key: string, value: string)

  /** `tag_key_join`: `managed`, then the arguments, joined with `-`. */
  function TagKeyJoin(args: seq<string>): (k: string)
    ensures args == [] ==> k == "managed"
    ensures args != [] ==> k == "managed-" + Join(args, '-')
  {
    JoinCons("managed", args, '-');
    Join(["managed"] + args, '-')
  }

  lemma JoinCons(a: string, rest: seq<string>, c: char)
    ensures rest == [] ==> Join([a] + rest, c) == a
    ensures rest != [] ==> Join([a] + rest, c) == a + [c] + Join(rest, c)
  {
    assert ([a] + rest)[1..] == rest;
  }

  /** The operation-enabling tag key `managed-<op>`. */
  function EnableKey(op: string): (k: string)
    ensures k == "managed-" + op
  {
    assert Join([op], '-') == op;
    TagKeyJoin([op])
  }

  /** The schedule tag key `managed-<op>-<freq>`. */
  function SchedKey(op: string, freq: string): (k: string)
    ensures k == "managed-" + op + "-" + freq
  {
    assert [op, freq][1..] == [freq];
    assert Join([op, freq], '-') == op + "-" + freq;
    TagKeyJoin([op, freq])
  }

  // ---------------------------------------------------------------------
  // Resource types and their operations

  datatype RsrcType = Instance | Volume | DBInstance

  const Start := "start"
  const Reboot := "reboot"
  const Stop := "stop"
  const Image := "image"
  const RebootImage := "reboot-image"
  const Snapshot := "snapshot"
  const RebootFailover := "reboot-failover"
  const SnapshotStop := "snapshot-stop"

  /** The AWS service of a resource type. */
  function Svc(rt: RsrcType): string {
    match rt
    case Instance => "ec2"
    case Volume => "ec2"
    case DBInstance => "rds"
  }

  /** The operations of a resource type, in the order both revisions list
      them: the keys of `PARAMS[svc]["rsrc_types"][rt]["ops"]` in the first
      revision, `CAPABS_FIND[svc][rt]` in the second. */
  function CapabsFind(rt: RsrcType): seq<string> {
    match rt
    case Instance => [Start, Reboot, Stop, Image, RebootImage]
    case Volume => [Snapshot]
    case DBInstance => [Start, Reboot, RebootFailover, Stop, Snapshot, SnapshotStop]
  }

  /** `op_set_to_op` of `PARAMS`: how a combination of operations due at the
      same time is reduced to one. */
  function OpSetToOpTable(rt: RsrcType): map<set<string>, string> {
    match rt
    case Instance =>
      map[{Reboot, Image} := RebootImage,
          {RebootImage, Image} := RebootImage,
          {RebootImage, Reboot} := RebootImage,
          {RebootImage, Image, Reboot} := RebootImage,
          {Reboot, Stop} := Stop]
    case Volume => map[]
    case DBInstance =>
      map[{Snapshot, Stop} := SnapshotStop,
          {SnapshotStop, Stop} := SnapshotStop,
          {SnapshotStop, Snapshot} := SnapshotStop,
          {SnapshotStop, Stop, Snapshot} := SnapshotStop,
          {Reboot, Stop} := Stop]
  }

  /** The frequencies, in the order of `SCHED_TAG_STRFTIME_FMTS`. */
  const Freqs: seq<string> := [Once, Periodic]

  // ---------------------------------------------------------------------
  // params_tags

  /** The reference `rsrcs_get` builds before looking at any resource:
      the regexps each known tag key must satisfy (none for an enabling
      tag), the pair of tag keys that makes each operation due, and the
      operation table extended with singletons. */
  datatype ParamsTags = ParamsTags(
    tagRegexps: map<string, seq<Regexp>>,
    tagSetToOp: map<set<string>, string>,
    opSetToOp: map<set<string>, string>)

  predicate FreqsKnown(freqs: seq<string>, lists: map<string, seq<Regexp>>) {
    forall j :: 0 <= j < |freqs| ==> freqs[j] in lists
  }

  /** The inner loop of `rsrcs_get` after the frequencies `freqs`, for one
      operation. */
  function WithFreqs(pt: ParamsTags, op: string, freqs: seq<string>, lists: map<string, seq<Regexp>>): ParamsTags
    requires FreqsKnown(freqs, lists)
    decreases |freqs|
  {
    if freqs == [] then pt
    else
      var p := WithFreqs(pt, op, freqs[..|freqs| - 1], lists);
      var f := freqs[|freqs| - 1];
      p.(tagRegexps := p.tagRegexps[SchedKey(op, f) := lists[f]],
         tagSetToOp := p.tagSetToOp[{EnableKey(op), SchedKey(op, f)} := op])
  }

  /** One pass of the outer loop of `rsrcs_get`. */
  function WithOp(pt: ParamsTags, op: string, freqs: seq<string>, lists: map<string, seq<Regexp>>): ParamsTags
    requires FreqsKnown(freqs, lists)
  {
    var p := WithFreqs(pt.(tagRegexps := pt.tagRegexps[EnableKey(op) := []]), op, freqs, lists);
    p.(opSetToOp := p.opSetToOp[{op} := op])
  }

  /** `params_tags` after the operations `ops`, starting from a copy of the
      operation table. */
  function ParamsTagsOf(ops: seq<string>, freqs: seq<string>, lists: map<string, seq<Regexp>>,
                        table: map<set<string>, string>): ParamsTags
    requires FreqsKnown(freqs, lists)
    decreases |ops|
  {
    if ops == [] then ParamsTags(map[], map[], table)
    else WithOp(ParamsTagsOf(ops[..|ops| - 1], freqs, lists, table), ops[|ops| - 1], freqs, lists)
  }

  /** The `params_tags` construction of `rsrcs_get`, both revisions: the
      loop over the operations and, inside it, over the frequencies. */
  method BuildParamsTags(ops: seq<string>, freqs: seq<string>, lists: map<string, seq<Regexp>>,
                         table: map<set<string>, string>) returns (pt: ParamsTags)
    requires FreqsKnown(freqs, lists)
    ensures pt == ParamsTagsOf(ops, freqs, lists, table)
  {
    pt := ParamsTags(map[], map[], table);
    var i := 0;
    while i < |ops|
      invariant 0 <= i <= |ops|
      invariant pt == ParamsTagsOf(ops[..i], freqs, lists, table)
    {
      var op := ops[i];
      var tagOp := EnableKey(op);
      var start := pt.(tagRegexps := pt.tagRegexps[tagOp := []]);
      pt := start;
      var j := 0;
      while j < |freqs|
        invariant 0 <= j <= |freqs|
        invariant pt == WithFreqs(start, op, freqs[..j], lists)
      {
        var freq := freqs[j];
        var tagOpFreq := SchedKey(op, freq);
        pt := pt.(tagRegexps := pt.tagRegexps[tagOpFreq := lists[freq]]);
        pt := pt.(tagSetToOp := pt.tagSetToOp[{tagOp, tagOpFreq} := op]);
        assert freqs[..j + 1][..j] == freqs[..j];
        j := j + 1;
      }
      assert freqs[..j] == freqs;
      pt := pt.(opSetToOp := pt.opSetToOp[{op} := op]);
      assert ops[..i + 1][..i] == ops[..i];
      i := i + 1;
    }
    assert ops[..i] == ops;
  }

  /** No schedule key is also an enabling key, and no two (operation,
      frequency) pairs share a schedule key. */
  predicate Unambiguous(ops: seq<string>, freqs: seq<string>) {
    && (forall o, o', f :: o in ops && o' in ops && f in freqs ==> EnableKey(o) != SchedKey(o', f))
    && (forall o, o', f, g :: o in ops && o' in ops && f in freqs && g in freqs && SchedKey(o, f) == SchedKey(o', g) ==>
          o == o' && f == g)
  }

  function SchedKeySet(op: string, freqs: seq<string>): set<string> {
    set f | f in freqs :: SchedKey(op, f)
  }

  function PairSet(op: string, freqs: seq<string>): set<set<string>> {
    set f | f in freqs :: {EnableKey(op), SchedKey(op, f)}
  }

  /** Every tag key `rsrcs_get` gives a meaning to. */
  function OpKeys(ops: seq<string>, freqs: seq<string>): set<string> {
    (set o | o in ops :: EnableKey(o)) + (set o, f | o in ops && f in freqs :: SchedKey(o, f))
  }

  /** Every pair of tag keys that makes an operation due. */
  function OpPairs(ops: seq<string>, freqs: seq<string>): set<set<string>> {
    set o, f | o in ops && f in freqs :: {EnableKey(o), SchedKey(o, f)}
  }

  lemma SchedKeyCancel(op: string, f: string, g: string)
    requires SchedKey(op, f) == SchedKey(op, g)
    ensures f == g
  {
    var n := |"managed-" + op + "-"|;
    assert SchedKey(op, f)[n..] == f;
    assert SchedKey(op, g)[n..] == g;
  }

  // The inner loop, one key at a time

  lemma {:induction false} WithFreqsRegexpAt(pt: ParamsTags, op: string, freqs: seq<string>,
                                             lists: map<string, seq<Regexp>>, k: string)
    requires FreqsKnown(freqs, lists)
    ensures WithFreqs(pt, op, freqs, lists).opSetToOp == pt.opSetToOp
    ensures k in WithFreqs(pt, op, freqs, lists).tagRegexps <==> k in pt.tagRegexps || k in SchedKeySet(op, freqs)
    ensures k !in SchedKeySet(op, freqs) && k in pt.tagRegexps ==>
              WithFreqs(pt, op, freqs, lists).tagRegexps[k] == pt.tagRegexps[k]
    ensures forall f :: f in freqs && k == SchedKey(op, f) ==> WithFreqs(pt, op, freqs, lists).tagRegexps[k] == lists[f]
    decreases |freqs|
  {
    if freqs != [] {
      var fs := freqs[..|freqs| - 1];
      var last := freqs[|freqs| - 1];
      assert freqs == fs + [last];
      assert SchedKeySet(op, freqs) == SchedKeySet(op, fs) + {SchedKey(op, last)};
      WithFreqsRegexpAt(pt, op, fs, lists, k);
      forall f | f in freqs && k == SchedKey(op, f)
        ensures WithFreqs(pt, op, freqs, lists).tagRegexps[k] == lists[f]
      {
        if k == SchedKey(op, last) {
          SchedKeyCancel(op, f, last);
        }
      }
    }
  }

  lemma {:induction false} WithFreqsPairAt(pt: ParamsTags, op: string, freqs: seq<string>,
                                           lists: map<string, seq<Regexp>>, s: set<string>)
    requires FreqsKnown(freqs, lists)
    ensures s in WithFreqs(pt, op, freqs, lists).tagSetToOp <==> s in pt.tagSetToOp || s in PairSet(op, freqs)
    ensures s !in PairSet(op, freqs) && s in pt.tagSetToOp ==>
              WithFreqs(pt, op, freqs, lists).tagSetToOp[s] == pt.tagSetToOp[s]
    ensures s in PairSet(op, freqs) ==> WithFreqs(pt, op, freqs, lists).tagSetToOp[s] == op
    decreases |freqs|
  {
    if freqs != [] {
      var fs := freqs[..|freqs| - 1];
      var last := freqs[|freqs| - 1];
      assert freqs == fs + [last];
      assert PairSet(op, freqs) == PairSet(op, fs) + {{EnableKey(op), SchedKey(op, last)}};
      WithFreqsPairAt(pt, op, fs, lists, s);
    }
  }

  lemma EnableKeyCancel(o: string, o': string)
    requires EnableKey(o) == EnableKey(o')
    ensures o == o'
  {
    assert EnableKey(o)[8..] == o;
    assert EnableKey(o')[8..] == o';
  }

  lemma PairInjective(o: string, f: string, o': string, g: string)
    requires EnableKey(o) != SchedKey(o', g)
    ensures {EnableKey(o), SchedKey(o, f)} == {EnableKey(o'), SchedKey(o', g)} ==> o == o'
  {
    if {EnableKey(o), SchedKey(o, f)} == {EnableKey(o'), SchedKey(o', g)} {
      assert EnableKey(o) in {EnableKey(o'), SchedKey(o', g)};
      EnableKeyCancel(o, o');
    }
  }

  lemma {:induction false} UnambiguousPrefix(ops: seq<string>, freqs: seq<string>)
    requires ops != [] && Unambiguous(ops, freqs)
    ensures Unambiguous(ops[..|ops| - 1], freqs)
  {
    var os := ops[..|ops| - 1];
    assert forall o :: o in os ==> o in ops;
  }

  lemma OpKeysSnoc(os: seq<string>, op: string, freqs: seq<string>)
    ensures OpKeys(os + [op], freqs) == OpKeys(os, freqs) + {EnableKey(op)} + SchedKeySet(op, freqs)
  {
    var ops := os + [op];
    assert forall o :: o in ops <==> o in os || o == op;
  }

  lemma OpPairsSnoc(os: seq<string>, op: string, freqs: seq<string>)
    ensures OpPairs(os + [op], freqs) == OpPairs(os, freqs) + PairSet(op, freqs)
  {
    var ops := os + [op];
    assert forall o :: o in ops <==> o in os || o == op;
  }

  lemma NotInPairSet(o: string, f: string, op: string, freqs: seq<string>)
    requires o != op && forall g :: g in freqs ==> EnableKey(o) != SchedKey(op, g)
    ensures {EnableKey(o), SchedKey(o, f)} !in PairSet(op, freqs)
  {
    forall g | g in freqs
      ensures {EnableKey(o), SchedKey(o, f)} != {EnableKey(op), SchedKey(op, g)}
    {
      PairInjective(o, f, op, g);
    }
  }

  lemma NotInSchedKeySet(k: string, op: string, freqs: seq<string>)
    requires forall g :: g in freqs ==> k != SchedKey(op, g)
    ensures k !in SchedKeySet(op, freqs)
  {
  }

  /** The tag keys `params_tags` gives regexps to: the enabling and the
      schedule keys of the operations, and no others. */
  lemma {:induction false} ParamsTagsRegexpKeys(ops: seq<string>, freqs: seq<string>, lists: map<string, seq<Regexp>>,
                                                table: map<set<string>, string>, k: string)
    requires FreqsKnown(freqs, lists)
    ensures k in ParamsTagsOf(ops, freqs, lists, table).tagRegexps <==> k in OpKeys(ops, freqs)
    decreases |ops|
  {
    if ops != [] {
      var os := ops[..|ops| - 1];
      var op := ops[|ops| - 1];
      assert ops == os + [op];
      ParamsTagsRegexpKeys(os, freqs, lists, table, k);
      OpKeysSnoc(os, op, freqs);
      var p0 := ParamsTagsOf(os, freqs, lists, table);
      WithFreqsRegexpAt(p0.(tagRegexps := p0.tagRegexps[EnableKey(op) := []]), op, freqs, lists, k);
    }
  }

  /** An enabling key carries no regexp, so any value of it matches. */
  lemma {:induction false} ParamsTagsEnableRegexps(ops: seq<string>, freqs: seq<string>, lists: map<string, seq<Regexp>>,
                                                   table: map<set<string>, string>, o: string)
    requires FreqsKnown(freqs, lists) && Unambiguous(ops, freqs) && o in ops
    ensures EnableKey(o) in ParamsTagsOf(ops, freqs, lists, table).tagRegexps
    ensures ParamsTagsOf(ops, freqs, lists, table).tagRegexps[EnableKey(o)] == []
    decreases |ops|
  {
    var os := ops[..|ops| - 1];
    var op := ops[|ops| - 1];
    assert ops == os + [op];
    var k := EnableKey(o);
    var p0 := ParamsTagsOf(os, freqs, lists, table);
    var p1 := p0.(tagRegexps := p0.tagRegexps[EnableKey(op) := []]);
    WithFreqsRegexpAt(p1, op, freqs, lists, k);
    NotInSchedKeySet(k, op, freqs);
    if o != op {
      UnambiguousPrefix(ops, freqs);
      ParamsTagsEnableRegexps(os, freqs, lists, table, o);
    }
  }

  /** A schedule key carries the regexps of its frequency. */
  lemma {:induction false} ParamsTagsSchedRegexps(ops: seq<string>, freqs: seq<string>, lists: map<string, seq<Regexp>>,
                                                  table: map<set<string>, string>, o: string, f: string)
    requires FreqsKnown(freqs, lists) && Unambiguous(ops, freqs) && o in ops && f in freqs
    ensures SchedKey(o, f) in ParamsTagsOf(ops, freqs, lists, table).tagRegexps
    ensures ParamsTagsOf(ops, freqs, lists, table).tagRegexps[SchedKey(o, f)] == lists[f]
    decreases |ops|
  {
    var os := ops[..|ops| - 1];
    var op := ops[|ops| - 1];
    assert ops == os + [op];
    var k := SchedKey(o, f);
    var p0 := ParamsTagsOf(os, freqs, lists, table);
    var p1 := p0.(tagRegexps := p0.tagRegexps[EnableKey(op) := []]);
    WithFreqsRegexpAt(p1, op, freqs, lists, k);
    if o != op {
      NotInSchedKeySet(k, op, freqs);
      assert k != EnableKey(op);
      UnambiguousPrefix(ops, freqs);
      ParamsTagsSchedRegexps(os, freqs, lists, table, o, f);
    }
  }

  /** The pairs of tag keys `params_tags` maps to operations: an enabling
      key with one of its schedule keys, and nothing else. */
  lemma {:induction false} ParamsTagsPairKeys(ops: seq<string>, freqs: seq<string>, lists: map<string, seq<Regexp>>,
                                              table: map<set<string>, string>, s: set<string>)
    requires FreqsKnown(freqs, lists)
    ensures s in ParamsTagsOf(ops, freqs, lists, table).tagSetToOp <==> s in OpPairs(ops, freqs)
    decreases |ops|
  {
    if ops != [] {
      var os := ops[..|ops| - 1];
      var op := ops[|ops| - 1];
      assert ops == os + [op];
      ParamsTagsPairKeys(os, freqs, lists, table, s);
      OpPairsSnoc(os, op, freqs);
      var p0 := ParamsTagsOf(os, freqs, lists, table);
      WithFreqsPairAt(p0.(tagRegexps := p0.tagRegexps[EnableKey(op) := []]), op, freqs, lists, s);
    }
  }

  /** The enabling key of an operation with one of its schedule keys makes
      that operation due. */
  lemma {:induction false} ParamsTagsPairOp(ops: seq<string>, freqs: seq<string>, lists: map<string, seq<Regexp>>,
                                            table: map<set<string>, string>, o: string, f: string)
    requires FreqsKnown(freqs, lists) && Unambiguous(ops, freqs) && o in ops && f in freqs
    ensures {EnableKey(o), SchedKey(o, f)} in ParamsTagsOf(ops, freqs, lists, table).tagSetToOp
    ensures ParamsTagsOf(ops, freqs, lists, table).tagSetToOp[{EnableKey(o), SchedKey(o, f)}] == o
    decreases |ops|
  {
    var os := ops[..|ops| - 1];
    var op := ops[|ops| - 1];
    assert ops == os + [op];
    var s := {EnableKey(o), SchedKey(o, f)};
    var p0 := ParamsTagsOf(os, freqs, lists, table);
    WithFreqsPairAt(p0.(tagRegexps := p0.tagRegexps[EnableKey(op) := []]), op, freqs, lists, s);
    if o == op {
      assert s in PairSet(op, freqs);
    } else {
      NotInPairSet(o, f, op, freqs);
      UnambiguousPrefix(ops, freqs);
      ParamsTagsPairOp(os, freqs, lists, table, o, f);
    }
  }

  /** `params_tags["op_set_to_op"]`: the copied table, with every operation
      added as its own singleton. */
  lemma {:induction false} ParamsTagsOpSetAt(ops: seq<string>, freqs: seq<string>, lists: map<string, seq<Regexp>>,
                                             table: map<set<string>, string>, s: set<string>)
    requires FreqsKnown(freqs, lists)
    ensures s in ParamsTagsOf(ops, freqs, lists, table).opSetToOp <==> s in table || exists o :: o in ops && s == {o}
    ensures forall o :: o in ops && s == {o} ==> ParamsTagsOf(ops, freqs, lists, table).opSetToOp[s] == o
    ensures (forall o :: o in ops ==> s != {o}) && s in table ==>
              ParamsTagsOf(ops, freqs, lists, table).opSetToOp[s] == table[s]
    decreases |ops|
  {
    if ops != [] {
      var os := ops[..|ops| - 1];
      var op := ops[|ops| - 1];
      assert ops == os + [op];
      ParamsTagsOpSetAt(os, freqs, lists, table, s);
      var p0 := ParamsTagsOf(os, freqs, lists, table);
      var p1 := p0.(tagRegexps := p0.tagRegexps[EnableKey(op) := []]);
      WithFreqsRegexpAt(p1, op, freqs, lists, "");
      var r := ParamsTagsOf(ops, freqs, lists, table);
      assert r.opSetToOp == p0.opSetToOp[{op} := op];
      forall o | o in ops && s == {o}
        ensures r.opSetToOp[s] == o
      {
        if s == {op} {
          assert op in s;
        }
      }
    }
  }

  // ---------------------------------------------------------------------
  // The tables of the three resource types

  /** No operation ends in `-once` or `-periodic`, so no enabling key is
      also a schedule key, and the last character of a frequency tells the
      frequencies apart. */
  lemma CapabsUnambiguous(rt: RsrcType)
    ensures Unambiguous(CapabsFind(rt), Freqs)
  {
    var ops := CapabsFind(rt);
    forall o, o', f | o in ops && o' in ops && f in Freqs
      ensures EnableKey(o) != SchedKey(o', f)
    {
      EnableNotSched(rt, o, o', f);
    }
    forall o, o', f, g | o in ops && o' in ops && f in Freqs && g in Freqs && SchedKey(o, f) == SchedKey(o', g)
      ensures o == o' && f == g
    {
      SchedKeyInjective(o, o', f, g);
    }
  }

  lemma EnableNotSched(rt: RsrcType, o: string, o': string, f: string)
    requires o in CapabsFind(rt) && o' in CapabsFind(rt) && f in Freqs
    ensures EnableKey(o) != SchedKey(o', f)
  {
    assert EnableKey(o)[8..] == o;
    assert SchedKey(o', f)[8..] == o' + "-" + f;
    NoFreqSuffix(rt, o, o', f);
  }

  lemma SchedKeyInjective(o: string, o': string, f: string, g: string)
    requires f in Freqs && g in Freqs && SchedKey(o, f) == SchedKey(o', g)
    ensures o == o' && f == g
  {
    SchedKeyLast(o, f);
    SchedKeyLast(o', g);
    assert f == g;
    assert |o| == |o'|;
    assert SchedKey(o, f)[8..8 + |o|] == o;
    assert SchedKey(o', g)[8..8 + |o'|] == o';
  }

  lemma SchedKeyLast(o: string, f: string)
    requires f in Freqs
    ensures SchedKey(o, f)[|SchedKey(o, f)| - 1] == f[|f| - 1]
  {
    assert SchedKey(o, f) == ("managed-" + o + "-") + f;
  }

  lemma NoFreqSuffix(rt: RsrcType, o: string, o': string, f: string)
    requires o in CapabsFind(rt) && o' in CapabsFind(rt) && f in Freqs
    ensures o != o' + "-" + f
  {
    var w := o' + "-" + f;
    assert w[|o'|] == '-';
    assert w[|w| - 1] == f[|f| - 1];
    assert |o| != |w| || o[|o'|] != '-' || o[|o| - 1] != f[|f| - 1];
  }

  /** Every combination in an operation table is of two or more operations
      of the resource type, and reduces to an operation of the type. */
  lemma TableWellFormed(rt: RsrcType, s: set<string>)
    requires s in OpSetToOpTable(rt)
    ensures forall o :: s != {o}
    ensures forall o :: o in s ==> o in CapabsFind(rt)
    ensures OpSetToOpTable(rt)[s] in CapabsFind(rt)
  {
    var a, b := TwoOf(rt, s);
    forall o
      ensures s != {o}
    {
      assert a in s && b in s && a != b;
    }
    if rt == Instance {
      assert s == {Reboot, Image} || s == {RebootImage, Image} || s == {RebootImage, Reboot}
          || s == {RebootImage, Image, Reboot} || s == {Reboot, Stop};
    } else {
      assert s == {Snapshot, Stop} || s == {SnapshotStop, Stop} || s == {SnapshotStop, Snapshot}
          || s == {SnapshotStop, Stop, Snapshot} || s == {Reboot, Stop};
    }
  }

  /** Two distinct operations of a combination in the table. */
  lemma TwoOf(rt: RsrcType, s: set<string>) returns (a: string, b: string)
    requires s in OpSetToOpTable(rt)
    ensures a in s && b in s && a != b
  {
    if rt == Instance {
      if Image in s {
        a, b := Image, if Reboot in s then Reboot else RebootImage;
      } else {
        a, b := Reboot, if Stop in s then Stop else RebootImage;
      }
    } else {
      if Snapshot in s {
        a, b := Snapshot, if Stop in s then Stop else SnapshotStop;
      } else {
        a, b := Stop, if Reboot in s then Reboot else SnapshotStop;
      }
    }
  }

  /** `params_tags` for a resource type and the regexp lists of a run time. */
  function ParamsTagsFor(rt: RsrcType, lists: map<string, seq<Regexp>>): ParamsTags
    requires FreqsKnown(Freqs, lists)
  {
    ParamsTagsOf(CapabsFind(rt), Freqs, lists, OpSetToOpTable(rt))
  }

  /** `dict.get(key, None)`. */
  function Resolve(m: map<set<string>, string>, s: set<string>): (r: Option<string>)
    ensures r.Some? <==> s in m
  {
    if s in m then Some(m[s]) else None
  }

  /** The operation set of a resource reduces to `o` exactly when it is the
      singleton of an operation of the type or a combination the table
      reduces to `o`. */
  lemma ResolveIff(rt: RsrcType, lists: map<string, seq<Regexp>>, s: set<string>, o: string)
    requires FreqsKnown(Freqs, lists)
    ensures Resolve(ParamsTagsFor(rt, lists).opSetToOp, s) == Some(o) <==>
              (o in CapabsFind(rt) && s == {o}) || (s in OpSetToOpTable(rt) && OpSetToOpTable(rt)[s] == o)
  {
    var table := OpSetToOpTable(rt);
    ParamsTagsOpSetAt(CapabsFind(rt), Freqs, lists, table, s);
    if s in table {
      TableWellFormed(rt, s);
    }
  }

  /** Any other set, the empty one included, reduces to nothing: the
      resource is logged as `OPS_UNSUPPORTED` when the set is not empty. */
  lemma ResolveNoneIff(rt: RsrcType, lists: map<string, seq<Regexp>>, s: set<string>)
    requires FreqsKnown(Freqs, lists)
    ensures Resolve(ParamsTagsFor(rt, lists).opSetToOp, s) == None <==>
              s !in OpSetToOpTable(rt) && forall o :: o in CapabsFind(rt) ==> s != {o}
  {
    ParamsTagsOpSetAt(CapabsFind(rt), Freqs, lists, OpSetToOpTable(rt), s);
  }

  lemma ResolveEmpty(rt: RsrcType, lists: map<string, seq<Regexp>>)
    requires FreqsKnown(Freqs, lists)
    ensures Resolve(ParamsTagsFor(rt, lists).opSetToOp, {}) == None
  {
    ResolveNoneIff(rt, lists, {});
    forall o | o in CapabsFind(rt)
      ensures {} != {o}
    {
      assert o in {o};
    }
  }

  /** The combinations of an EC2 instance. */
  lemma InstanceCombinations(lists: map<string, seq<Regexp>>)
    requires FreqsKnown(Freqs, lists)
    ensures var m := ParamsTagsFor(Instance, lists).opSetToOp;
      && Resolve(m, {Reboot, Image}) == Some(RebootImage)
      && Resolve(m, {RebootImage, Image}) == Some(RebootImage)
      && Resolve(m, {RebootImage, Reboot}) == Some(RebootImage)
      && Resolve(m, {RebootImage, Image, Reboot}) == Some(RebootImage)
      && Resolve(m, {Reboot, Stop}) == Some(Stop)
      && Resolve(m, {Start, Stop}) == None
      && Resolve(m, {Image, Stop}) == None
  {
    ResolveIff(Instance, lists, {Reboot, Image}, RebootImage);
    ResolveIff(Instance, lists, {RebootImage, Image}, RebootImage);
    ResolveIff(Instance, lists, {RebootImage, Reboot}, RebootImage);
    ResolveIff(Instance, lists, {RebootImage, Image, Reboot}, RebootImage);
    ResolveIff(Instance, lists, {Reboot, Stop}, Stop);
    NotSingleton(Instance, Start, Stop);
    ResolveNoneIff(Instance, lists, {Start, Stop});
    NotSingleton(Instance, Image, Stop);
    ResolveNoneIff(Instance, lists, {Image, Stop});
  }

  /** The combinations of an RDS database instance. */
  lemma DBInstanceCombinations(lists: map<string, seq<Regexp>>)
    requires FreqsKnown(Freqs, lists)
    ensures var m := ParamsTagsFor(DBInstance, lists).opSetToOp;
      && Resolve(m, {Snapshot, Stop}) == Some(SnapshotStop)
      && Resolve(m, {SnapshotStop, Stop}) == Some(SnapshotStop)
      && Resolve(m, {SnapshotStop, Snapshot}) == Some(SnapshotStop)
      && Resolve(m, {SnapshotStop, Stop, Snapshot}) == Some(SnapshotStop)
      && Resolve(m, {Reboot, Stop}) == Some(Stop)
      && Resolve(m, {Reboot, RebootFailover}) == None
      && Resolve(m, {Start, Stop}) == None
  {
    ResolveIff(DBInstance, lists, {Snapshot, Stop}, SnapshotStop);
    ResolveIff(DBInstance, lists, {SnapshotStop, Stop}, SnapshotStop);
    ResolveIff(DBInstance, lists, {SnapshotStop, Snapshot}, SnapshotStop);
    ResolveIff(DBInstance, lists, {SnapshotStop, Stop, Snapshot}, SnapshotStop);
    ResolveIff(DBInstance, lists, {Reboot, Stop}, Stop);
    NotSingleton(DBInstance, Reboot, RebootFailover);
    ResolveNoneIff(DBInstance, lists, {Reboot, RebootFailover});
    NotSingleton(DBInstance, Start, Stop);
    ResolveNoneIff(DBInstance, lists, {Start, Stop});
  }

  /** A volume has one operation and no combinations. */
  lemma VolumeCombinations(lists: map<string, seq<Regexp>>, s: set<string>)
    requires FreqsKnown(Freqs, lists)
    ensures Resolve(ParamsTagsFor(Volume, lists).opSetToOp, s) == (if s == {Snapshot} then Some(Snapshot) else None)
  {
    ParamsTagsOpSetAt(CapabsFind(Volume), Freqs, lists, OpSetToOpTable(Volume), s);
  }

  lemma NotSingleton(rt: RsrcType, a: string, b: string)
    requires a != b
    ensures forall o :: o in CapabsFind(rt) ==> {a, b} != {o}
  {
    forall o | o in CapabsFind(rt)
      ensures {a, b} != {o}
    {
      assert a in {a, b} && b in {a, b};
    }
  }

  // ---------------------------------------------------------------------
  // rsrc_process

  /** The `result` dict of `rsrc_process`; the child tags `C` are a list of
      tags in the first revision and a dict in the second. */
  datatype RsrcResult<C> = RsrcResult(opsTentative: set<string>, nameFromTag: string, childTags: C, op: Option<string>)

  /** `TAG_KEYS_UNSAFE_REGEXP.match`. */
  predicate KeyUnsafe(k: string) {
    "aws:" <= k || "ec2:" <= k || "rds:" <= k || "managed-delete" <= k
  }

  /** `TAG_VALS_UNSAFE_REGEXP.match`. */
  predicate ValUnsafe(v: string) {
    "aws:" <= v || "ec2:" <= v || "rds:" <= v
  }

  /** A tag that is passed on to a child resource: not `Name`, not a key
      with a meaning to the scheduler, and not created by AWS. */
  predicate Passes(pt: ParamsTags, t: Tag) {
    t.key != "Name" && t.key !in pt.tagRegexps && !KeyUnsafe(t.key) && !ValUnsafe(t.value)
  }

  /** `tags_match` after the tags `tags`. */
  function MatchedKeys(pt: ParamsTags, tags: seq<Tag>): set<string>
    decreases |tags|
  {
    if tags == [] then {}
    else
      var m := MatchedKeys(pt, tags[..|tags| - 1]);
      var t := tags[|tags| - 1];
      if t.key != "Name" && t.key in pt.tagRegexps && AllSearch(pt.tagRegexps[t.key], t.value) then m + {t.key} else m
  }

  /** `result["name_from_tag"]` after the tags `tags`. */
  function NameFromTag(tags: seq<Tag>): string
    decreases |tags|
  {
    if tags == [] then ""
    else if tags[|tags| - 1].key == "Name" then tags[|tags| - 1].value
    else NameFromTag(tags[..|tags| - 1])
  }

  /** `result["child_tags"]` of the first revision after the tags `tags`. */
  function ChildTagsList(pt: ParamsTags, tags: seq<Tag>): seq<Tag>
    decreases |tags|
  {
    if tags == [] then []
    else
      var c := ChildTagsList(pt, tags[..|tags| - 1]);
      var t := tags[|tags| - 1];
      if Passes(pt, t) then c + [t] else c
  }

  /** `result["child_tags"]` of the second revision after the tags `tags`. */
  function ChildTagsMap(pt: ParamsTags, tags: seq<Tag>): map<string, string>
    decreases |tags|
  {
    if tags == [] then map[]
    else
      var c := ChildTagsMap(pt, tags[..|tags| - 1]);
      var t := tags[|tags| - 1];
      if Passes(pt, t) then c[t.key := t.value] else c
  }

  /** The operations whose required tag keys all matched, among the keys of
      `keys`. */
  function TentativeOver(m: map<set<string>, string>, keys: set<set<string>>, matched: set<string>): set<string> {
    set req | req in keys && req in m && req <= matched :: m[req]
  }

  /** `result["ops_tentative"]`. */
  function Tentative(m: map<set<string>, string>, matched: set<string>): set<string> {
    TentativeOver(m, m.Keys, matched)
  }

  lemma TentativeOverAdd(m: map<set<string>, string>, keys: set<set<string>>, req: set<string>, matched: set<string>)
    requires req in m
    ensures TentativeOver(m, keys + {req}, matched) ==
              TentativeOver(m, keys, matched) + (if req <= matched then {m[req]} else {})
  {
  }

  /** The for-else loop over the regexps of a tag key. */
  method SearchAll(regexps: seq<Regexp>, v: string) returns (all: bool)
    ensures all == AllSearch(regexps, v)
  {
    all := true;
    var i := 0;
    while i < |regexps|
      invariant 0 <= i <= |regexps|
      invariant forall j :: 0 <= j < i ==> Search(regexps[j], v)
    {
      if !Search(regexps[i], v) {
        all := false;
        break;
      }
      i := i + 1;
    }
  }

  /** The loop over `params_tags["tag_set_to_op"].items()`, in whatever
      order the dict yields them. */
  method CollectTentative(m: map<set<string>, string>, matched: set<string>) returns (ops: set<string>)
    ensures ops == Tentative(m, matched)
  {
    ops := {};
    var todo := m.Keys;
    while todo != {}
      invariant todo <= m.Keys
      invariant ops == TentativeOver(m, m.Keys - todo, matched)
      decreases |todo|
    {
      var req :| req in todo;
      TentativeOverAdd(m, m.Keys - todo, req, matched);
      if req <= matched {
        ops := ops + {m[req]};
      }
      assert m.Keys - (todo - {req}) == (m.Keys - todo) + {req};
      todo := todo - {req};
    }
    assert m.Keys - todo == m.Keys;
  }

  /** `rsrc_process` of the first revision: the tags come from
      `tags_get_fn(rsrc)`; child tags are a list. */
  method RsrcProcess1(pt: ParamsTags, tags: seq<Tag>) returns (r: RsrcResult<seq<Tag>>)
    ensures r.opsTentative == Tentative(pt.tagSetToOp, MatchedKeys(pt, tags))
    ensures r.nameFromTag == NameFromTag(tags)
    ensures r.childTags == ChildTagsList(pt, tags)
    ensures r.op == Resolve(pt.opSetToOp, r.opsTentative)
  {
    var tagsMatch: set<string> := {};
    var nameFromTag := "";
    var childTags: seq<Tag> := [];
    var i := 0;
    while i < |tags|
      invariant 0 <= i <= |tags|
      invariant tagsMatch == MatchedKeys(pt, tags[..i])
      invariant nameFromTag == NameFromTag(tags[..i])
      invariant childTags == ChildTagsList(pt, tags[..i])
    {
      var tag := tags[i];
      if tag.key == "Name" {
        nameFromTag := tag.value;
      } else if tag.key !in pt.tagRegexps {
        if !(KeyUnsafe(tag.key) || ValUnsafe(tag.value)) {
          childTags := childTags + [tag];
        }
      } else {
        var all := SearchAll(pt.tagRegexps[tag.key], tag.value);
        if all {
          tagsMatch := tagsMatch + {tag.key};
        }
      }
      assert tags[..i + 1][..i] == tags[..i];
      i := i + 1;
    }
    assert tags[..i] == tags;
    var opsTentative := CollectTentative(pt.tagSetToOp, tagsMatch);
    r := RsrcResult(opsTentative, nameFromTag, childTags, Resolve(pt.opSetToOp, opsTentative));
  }

  /** `rsrc_process` of the second revision: child tags are a dict, so a
      later tag overwrites an earlier one with the same key. */
  method RsrcProcess2(pt: ParamsTags, tags: seq<Tag>) returns (r: RsrcResult<map<string, string>>)
    ensures r.opsTentative == Tentative(pt.tagSetToOp, MatchedKeys(pt, tags))
    ensures r.nameFromTag == NameFromTag(tags)
    ensures r.childTags == ChildTagsMap(pt, tags)
    ensures r.op == Resolve(pt.opSetToOp, r.opsTentative)
  {
    var tagsMatch: set<string> := {};
    var nameFromTag := "";
    var childTags: map<string, string> := map[];
    var i := 0;
    while i < |tags|
      invariant 0 <= i <= |tags|
      invariant tagsMatch == MatchedKeys(pt, tags[..i])
      invariant nameFromTag == NameFromTag(tags[..i])
      invariant childTags == ChildTagsMap(pt, tags[..i])
    {
      var tag := tags[i];
      if tag.key == "Name" {
        nameFromTag := tag.value;
      } else if tag.key !in pt.tagRegexps {
        if !(KeyUnsafe(tag.key) || ValUnsafe(tag.value)) {
          childTags := childTags[tag.key := tag.value];
        }
      } else {
        var all := SearchAll(pt.tagRegexps[tag.key], tag.value);
        if all {
          tagsMatch := tagsMatch + {tag.key};
        }
      }
      assert tags[..i + 1][..i] == tags[..i];
      i := i + 1;
    }
    assert tags[..i] == tags;
    var opsTentative := CollectTentative(pt.tagSetToOp, tagsMatch);
    r := RsrcResult(opsTentative, nameFromTag, childTags, Resolve(pt.opSetToOp, opsTentative));
  }

  // The meaning of the folds

  /** A tag key lands in `tags_match` exactly when some tag with that key,
      other than `Name`, satisfies every regexp `params_tags` gives it. */
  lemma {:induction false} MatchedKeysIff(pt: ParamsTags, tags: seq<Tag>, k: string)
    ensures k in MatchedKeys(pt, tags) <==>
              k != "Name" && k in pt.tagRegexps &&
              exists i :: 0 <= i < |tags| && tags[i].key == k && AllSearch(pt.tagRegexps[k], tags[i].value)
    decreases |tags|
  {
    if tags != [] {
      var ts := tags[..|tags| - 1];
      MatchedKeysIff(pt, ts, k);
      var t := tags[|tags| - 1];
      if k in pt.tagRegexps {
        var rs := pt.tagRegexps[k];
        if exists i :: 0 <= i < |ts| && ts[i].key == k && AllSearch(rs, ts[i].value) {
          var i :| 0 <= i < |ts| && ts[i].key == k && AllSearch(rs, ts[i].value);
          assert tags[i] == ts[i];
        }
        if exists i :: 0 <= i < |tags| && tags[i].key == k && AllSearch(rs, tags[i].value) {
          var i :| 0 <= i < |tags| && tags[i].key == k && AllSearch(rs, tags[i].value);
          if i < |ts| {
            assert ts[i] == tags[i];
          }
        }
      }
    }
  }

  /** Some tag has the key `k`. */
  predicate HasKey(tags: seq<Tag>, k: string) {
    exists i :: 0 <= i < |tags| && tags[i].key == k
  }

  lemma EnableKeyNotName(o: string)
    ensures EnableKey(o) != "Name"
  {
    assert EnableKey(o)[0] == 'm';
  }

  /** An enabling tag matches whatever its value. */
  lemma EnableMatchedIff(ops: seq<string>, freqs: seq<string>, lists: map<string, seq<Regexp>>,
                         table: map<set<string>, string>, tags: seq<Tag>, o: string)
    requires FreqsKnown(freqs, lists) && Unambiguous(ops, freqs) && o in ops
    ensures EnableKey(o) in MatchedKeys(ParamsTagsOf(ops, freqs, lists, table), tags) <==> HasKey(tags, EnableKey(o))
  {
    var pt := ParamsTagsOf(ops, freqs, lists, table);
    MatchedKeysIff(pt, tags, EnableKey(o));
    ParamsTagsEnableRegexps(ops, freqs, lists, table, o);
    EnableKeyNotName(o);
  }

  /** A schedule tag matches when its value satisfies every regexp of its
      frequency. */
  lemma SchedMatchedIff(ops: seq<string>, freqs: seq<string>, lists: map<string, seq<Regexp>>,
                        table: map<set<string>, string>, tags: seq<Tag>, o: string, f: string)
    requires FreqsKnown(freqs, lists) && Unambiguous(ops, freqs) && o in ops && f in freqs
    ensures SchedKey(o, f) in MatchedKeys(ParamsTagsOf(ops, freqs, lists, table), tags) <==>
              exists i :: 0 <= i < |tags| && tags[i].key == SchedKey(o, f) && AllSearch(lists[f], tags[i].value)
  {
    var pt := ParamsTagsOf(ops, freqs, lists, table);
    MatchedKeysIff(pt, tags, SchedKey(o, f));
    ParamsTagsSchedRegexps(ops, freqs, lists, table, o, f);
    assert SchedKey(o, f)[0] == 'm';
  }

  /** An operation is tentative exactly when its enabling key and at least
      one of its schedule keys matched. */
  lemma TentativeIff(ops: seq<string>, freqs: seq<string>, lists: map<string, seq<Regexp>>,
                     table: map<set<string>, string>, matched: set<string>, o: string)
    requires FreqsKnown(freqs, lists) && Unambiguous(ops, freqs)
    ensures o in Tentative(ParamsTagsOf(ops, freqs, lists, table).tagSetToOp, matched) <==>
              o in ops && EnableKey(o) in matched && exists f :: f in freqs && SchedKey(o, f) in matched
  {
    var m := ParamsTagsOf(ops, freqs, lists, table).tagSetToOp;
    if o in Tentative(m, matched) {
      var req :| req in m && req <= matched && m[req] == o;
      ParamsTagsPairKeys(ops, freqs, lists, table, req);
      var o', f :| o' in ops && f in freqs && req == {EnableKey(o'), SchedKey(o', f)};
      ParamsTagsPairOp(ops, freqs, lists, table, o', f);
      assert EnableKey(o) in req && SchedKey(o, f) in req;
    }
    if o in ops && EnableKey(o) in matched && exists f :: f in freqs && SchedKey(o, f) in matched {
      var f :| f in freqs && SchedKey(o, f) in matched;
      ParamsTagsPairOp(ops, freqs, lists, table, o, f);
      var req := {EnableKey(o), SchedKey(o, f)};
      assert req in m && req <= matched;
    }
  }

  /** The tag is a schedule tag of `o` whose value satisfies every regexp
      of its frequency. */
  predicate HitsAt(lists: map<string, seq<Regexp>>, tag: Tag, o: string)
    requires Once in lists && Periodic in lists
  {
    || (tag.key == SchedKey(o, Once) && AllSearch(lists[Once], tag.value))
    || (tag.key == SchedKey(o, Periodic) && AllSearch(lists[Periodic], tag.value))
  }

  /** Some schedule tag of `o` hits. */
  predicate ScheduleHit(lists: map<string, seq<Regexp>>, tags: seq<Tag>, o: string)
    requires Once in lists && Periodic in lists
  {
    exists i :: 0 <= i < |tags| && HitsAt(lists, tags[i], o)
  }

  /** The whole of `rsrc_process` up to `ops_tentative`: an operation of
      the resource type is tentative exactly when the resource has its
      enabling tag, with any value, and a schedule tag for it whose value
      satisfies the regexps of its frequency (for the regexp lists of a run
      time, `HitsAtIff` says what that means). */
  lemma DueIff(rt: RsrcType, lists: map<string, seq<Regexp>>, tags: seq<Tag>, o: string)
    requires FreqsKnown(Freqs, lists)
    ensures Once in lists && Periodic in lists
    ensures var pt := ParamsTagsFor(rt, lists);
            o in Tentative(pt.tagSetToOp, MatchedKeys(pt, tags)) <==>
              o in CapabsFind(rt) && HasKey(tags, EnableKey(o)) && ScheduleHit(lists, tags, o)
  {
    assert Freqs[0] == Once && Freqs[1] == Periodic;
    var ops := CapabsFind(rt);
    var table := OpSetToOpTable(rt);
    var pt := ParamsTagsFor(rt, lists);
    var matched := MatchedKeys(pt, tags);
    CapabsUnambiguous(rt);
    var eo, ep := SchedKey(o, Once), SchedKey(o, Periodic);
    assert o in Tentative(pt.tagSetToOp, matched) <==> o in ops && EnableKey(o) in matched && (eo in matched || ep in matched) by {
      TentativeIff(ops, Freqs, lists, table, matched, o);
    }
    if o in ops {
      assert EnableKey(o) in matched <==> HasKey(tags, EnableKey(o)) by {
        EnableMatchedIff(ops, Freqs, lists, table, tags, o);
      }
      assert eo in matched <==> exists i :: 0 <= i < |tags| && tags[i].key == eo && AllSearch(lists[Once], tags[i].value) by {
        SchedMatchedIff(ops, Freqs, lists, table, tags, o, Once);
      }
      assert ep in matched <==> exists i :: 0 <= i < |tags| && tags[i].key == ep && AllSearch(lists[Periodic], tags[i].value) by {
        SchedMatchedIff(ops, Freqs, lists, table, tags, o, Periodic);
      }
    }
  }

  /** A schedule tag without the enabling tag never makes an operation due. */
  lemma NoEnablingNeverDue(rt: RsrcType, lists: map<string, seq<Regexp>>, tags: seq<Tag>, o: string)
    requires FreqsKnown(Freqs, lists) && !HasKey(tags, EnableKey(o))
    ensures var pt := ParamsTagsFor(rt, lists);
            o !in Tentative(pt.tagSetToOp, MatchedKeys(pt, tags))
  {
    DueIff(rt, lists, tags, o);
  }

  /** For the regexp lists of a run time on a 10-minute boundary, a schedule
      tag hits exactly when its value names the time: a `YYYY-MM-DDTHH:M?`
      part for a one-time tag, a day, an hour and a minute part for a
      periodic one. */
  lemma HitsAtIff(rev: Revision, t: RunTime, tag: Tag, o: string)
    requires t.Valid() && t.minute % 10 == 0
    ensures Once in SchedRegexpLists(rev, t) && Periodic in SchedRegexpLists(rev, t)
    ensures HitsAt(SchedRegexpLists(rev, t), tag, o) <==>
              || (tag.key == SchedKey(o, Once) && HasOncePart(t, tag.value))
              || (tag.key == SchedKey(o, Periodic) &&
                  HasDayPart(rev, t, tag.value) && HasHourPart(rev, t, tag.value) && HasMinutePart(t, tag.value))
  {
    OnceMatchIff(rev, t, tag.value);
    PeriodicMatchIff(rev, t, tag.value);
  }

  /** Changing the value of an enabling tag changes nothing that is matched. */
  lemma EnableValueIrrelevant(ops: seq<string>, freqs: seq<string>, lists: map<string, seq<Regexp>>,
                              table: map<set<string>, string>, tags: seq<Tag>, i: nat, o: string, v: string)
    requires FreqsKnown(freqs, lists) && Unambiguous(ops, freqs) && o in ops
    requires i < |tags| && tags[i].key == EnableKey(o)
    ensures var pt := ParamsTagsOf(ops, freqs, lists, table);
            MatchedKeys(pt, tags[i := Tag(EnableKey(o), v)]) == MatchedKeys(pt, tags)
  {
    var pt := ParamsTagsOf(ops, freqs, lists, table);
    var tags' := tags[i := Tag(EnableKey(o), v)];
    forall k
      ensures k in MatchedKeys(pt, tags') <==> k in MatchedKeys(pt, tags)
    {
      if k == EnableKey(o) {
        EnableMatchedIff(ops, freqs, lists, table, tags, o);
        EnableMatchedIff(ops, freqs, lists, table, tags', o);
        assert tags'[i].key == k;
      } else {
        MatchedKeysIff(pt, tags, k);
        MatchedKeysIff(pt, tags', k);
        assert forall j :: 0 <= j < |tags| && tags[j].key == k ==> tags'[j] == tags[j];
      }
    }
  }

  /** `name_from_tag` is the value of the last `Name` tag, or empty. */
  lemma {:induction false} NameFromTagLast(tags: seq<Tag>, i: nat)
    requires i < |tags| && tags[i].key == "Name"
    requires forall j :: i < j < |tags| ==> tags[j].key != "Name"
    ensures NameFromTag(tags) == tags[i].value
    decreases |tags|
  {
    if i < |tags| - 1 {
      NameFromTagLast(tags[..|tags| - 1], i);
    }
  }

  lemma {:induction false} NameFromTagNone(tags: seq<Tag>)
    requires !HasKey(tags, "Name")
    ensures NameFromTag(tags) == ""
    decreases |tags|
  {
    if tags != [] {
      var ts := tags[..|tags| - 1];
      assert !HasKey(ts, "Name") by {
        forall j | 0 <= j < |ts|
          ensures ts[j].key != "Name"
        {
          assert ts[j] == tags[j];
        }
      }
      NameFromTagNone(ts);
    }
  }

  /** The child tags of the first revision are the passing tags, verbatim
      and in their original order. */
  lemma {:induction false} ChildTagsListIff(pt: ParamsTags, tags: seq<Tag>, t: Tag)
    ensures t in ChildTagsList(pt, tags) <==> t in tags && Passes(pt, t)
    decreases |tags|
  {
    if tags != [] {
      var ts := tags[..|tags| - 1];
      ChildTagsListIff(pt, ts, t);
      assert tags == ts + [tags[|tags| - 1]];
    }
  }

  lemma {:induction false} ChildTagsListAppend(pt: ParamsTags, a: seq<Tag>, b: seq<Tag>)
    ensures ChildTagsList(pt, a + b) == ChildTagsList(pt, a) + ChildTagsList(pt, b)
    decreases |b|
  {
    if b != [] {
      var bs := b[..|b| - 1];
      assert (a + b)[..|a + b| - 1] == a + bs;
      assert (a + b)[|a + b| - 1] == b[|b| - 1];
      ChildTagsListAppend(pt, a, bs);
    } else {
      assert a + b == a;
    }
  }

  /** Which tags pass on to a child: every tag but `Name`, the enabling and
      schedule keys of the operations, and the AWS-reserved keys and values. */
  lemma PassesIff(ops: seq<string>, freqs: seq<string>, lists: map<string, seq<Regexp>>,
                  table: map<set<string>, string>, t: Tag)
    requires FreqsKnown(freqs, lists)
    ensures Passes(ParamsTagsOf(ops, freqs, lists, table), t) <==>
              t.key != "Name" && t.key !in OpKeys(ops, freqs) && !KeyUnsafe(t.key) && !ValUnsafe(t.value)
  {
    ParamsTagsRegexpKeys(ops, freqs, lists, table, t.key);
  }

  /** The child tags of the second revision hold the keys of the passing
      tags ... */
  lemma {:induction false} ChildTagsMapKeys(pt: ParamsTags, tags: seq<Tag>, k: string)
    ensures k in ChildTagsMap(pt, tags) <==> exists i :: 0 <= i < |tags| && tags[i].key == k && Passes(pt, tags[i])
    decreases |tags|
  {
    if tags != [] {
      var ts := tags[..|tags| - 1];
      ChildTagsMapKeys(pt, ts, k);
      if exists i :: 0 <= i < |ts| && ts[i].key == k && Passes(pt, ts[i]) {
        var i :| 0 <= i < |ts| && ts[i].key == k && Passes(pt, ts[i]);
        assert tags[i] == ts[i];
      }
      if exists i :: 0 <= i < |tags| && tags[i].key == k && Passes(pt, tags[i]) {
        var i :| 0 <= i < |tags| && tags[i].key == k && Passes(pt, tags[i]);
        if i < |ts| {
          assert ts[i] == tags[i];
        }
      }
    }
  }

  /** ... each with the value of the last passing tag with that key. */
  lemma {:induction false} ChildTagsMapLast(pt: ParamsTags, tags: seq<Tag>, i: nat)
    requires i < |tags| && Passes(pt, tags[i])
    requires forall j :: i < j < |tags| && tags[j].key == tags[i].key ==> !Passes(pt, tags[j])
    ensures tags[i].key in ChildTagsMap(pt, tags)
    ensures ChildTagsMap(pt, tags)[tags[i].key] == tags[i].value
    decreases |tags|
  {
    if i < |tags| - 1 {
      var ts := tags[..|tags| - 1];
      assert ts[i] == tags[i];
      ChildTagsMapLast(pt, ts, i);
    }
  }
}
