/** `rsrcs_get` of the first revision: every described resource is
    processed, and the ones that resolve to an operation are filed under
    it, by resource ID, in a dict of dicts. */
module Placement {
  import opened Wrappers
  import opened Schedule
  import opened Operations

  /** A described resource: its `id_key` value and its tags. */
  datatype Rsrc = Rsrc(id: string, tags: seq<Tag>)

  /** What is kept of `rsrc_process`'s result once `op` is popped. */
  datatype Entry = Entry(opsTentative: set<string>, nameFromTag: string, childTags: seq<Tag>)

  function TentativeOf(pt: ParamsTags, tags: seq<Tag>): set<string> {
    Tentative(pt.tagSetToOp, MatchedKeys(pt, tags))
  }

  /** The operation `rsrc_process` resolves, or None; Python's `if op:`
      also treats an empty operation name as no operation. */
  function OpOf(pt: ParamsTags, tags: seq<Tag>): Option<string> {
    var op := Resolve(pt.opSetToOp, TentativeOf(pt, tags));
    if op.Some? && op.value != "" then op else None
  }

  function EntryOf(pt: ParamsTags, tags: seq<Tag>): Entry {
    Entry(TentativeOf(pt, tags), NameFromTag(tags), ChildTagsList(pt, tags))
  }

  /** `rsrcs`, the defaultdict operation --> resource ID --> entry, after
      the resources `rs` in order. */
  function Placed(pt: ParamsTags, rs: seq<Rsrc>): map<string, map<string, Entry>>
    decreases |rs|
  {
    if rs == [] then map[]
    else
      var p := Placed(pt, rs[..|rs| - 1]);
      var x := rs[|rs| - 1];
      match OpOf(pt, x.tags)
      case None => p
      case Some(op) =>
        var inner := if op in p then p[op] else map[];
        p[op := inner[x.id := EntryOf(pt, x.tags)]]
  }

  /** The resources logged as `OPS_UNSUPPORTED`, with their tentative
      operations. */
  function Unsupported(pt: ParamsTags, rs: seq<Rsrc>): seq<(string, set<string>)>
    decreases |rs|
  {
    if rs == [] then []
    else
      var x := rs[|rs| - 1];
      Unsupported(pt, rs[..|rs| - 1]) +
        (if OpOf(pt, x.tags).None? && TentativeOf(pt, x.tags) != {} then [(x.id, TentativeOf(pt, x.tags))] else [])
  }

  method RsrcsGet(pt: ParamsTags, rs: seq<Rsrc>) returns (rsrcs: map<string, map<string, Entry>>, unsupported: seq<(string, set<string>)>)
    ensures rsrcs == Placed(pt, rs)
    ensures unsupported == Unsupported(pt, rs)
  {
    rsrcs := map[];
    unsupported := [];
    var i := 0;
    while i < |rs|
      invariant 0 <= i <= |rs|
      invariant rsrcs == Placed(pt, rs[..i])
      invariant unsupported == Unsupported(pt, rs[..i])
    {
      var rsrc := rs[i];
      var processed := RsrcProcess1(pt, rsrc.tags);
      var op := processed.op;
      assert rs[..i + 1][..i] == rs[..i];
      if op.Some? && op.value != "" {
        var inner := if op.value in rsrcs then rsrcs[op.value] else map[];
        rsrcs := rsrcs[op.value := inner[rsrc.id := Entry(processed.opsTentative, processed.nameFromTag, processed.childTags)]];
      } else if processed.opsTentative != {} {
        unsupported := unsupported + [(rsrc.id, processed.opsTentative)];
      }
      i := i + 1;
    }
    assert rs[..i] == rs;
  }

  predicate DistinctIds(rs: seq<Rsrc>) {
    forall j, k :: 0 <= j < k < |rs| ==> rs[j].id != rs[k].id
  }

  /** A resource ID is filed under an operation exactly when some resource
      with that ID resolves to it; with distinct IDs its entry is that
      resource's. */
  lemma {:induction false} PlacedIff(pt: ParamsTags, rs: seq<Rsrc>, op: string, id: string)
    requires DistinctIds(rs)
    ensures (op in Placed(pt, rs) && id in Placed(pt, rs)[op]) <==>
              exists j :: 0 <= j < |rs| && rs[j].id == id && OpOf(pt, rs[j].tags) == Some(op)
    ensures forall j :: 0 <= j < |rs| && rs[j].id == id && OpOf(pt, rs[j].tags) == Some(op) ==>
              op in Placed(pt, rs) && id in Placed(pt, rs)[op] && Placed(pt, rs)[op][id] == EntryOf(pt, rs[j].tags)
    decreases |rs|
  {
    if rs != [] {
      var front := rs[..|rs| - 1];
      var x := rs[|rs| - 1];
      assert DistinctIds(front);
      PlacedIff(pt, front, op, id);
      forall j | 0 <= j < |front|
        ensures front[j] == rs[j]
      {
      }
    }
  }

  /** `rsrcs_get` files each resource under at most one operation. */
  lemma AtMostOneOp(pt: ParamsTags, rs: seq<Rsrc>, op1: string, op2: string, id: string)
    requires DistinctIds(rs)
    requires op1 in Placed(pt, rs) && id in Placed(pt, rs)[op1]
    requires op2 in Placed(pt, rs) && id in Placed(pt, rs)[op2]
    ensures op1 == op2
  {
    PlacedIff(pt, rs, op1, id);
    PlacedIff(pt, rs, op2, id);
    var j1 :| 0 <= j1 < |rs| && rs[j1].id == id && OpOf(pt, rs[j1].tags) == Some(op1);
    var j2 :| 0 <= j2 < |rs| && rs[j2].id == id && OpOf(pt, rs[j2].tags) == Some(op2);
    assert j1 == j2;
  }

  /** A resource is logged as unsupported exactly when its tentative
      operations are not empty and resolve to none. */
  lemma {:induction false} UnsupportedIff(pt: ParamsTags, rs: seq<Rsrc>, id: string, ops: set<string>)
    ensures (id, ops) in Unsupported(pt, rs) <==>
              exists j :: 0 <= j < |rs| && rs[j].id == id && ops == TentativeOf(pt, rs[j].tags) && ops != {}
                          && OpOf(pt, rs[j].tags).None?
    decreases |rs|
  {
    if rs != [] {
      var front := rs[..|rs| - 1];
      UnsupportedIff(pt, front, id, ops);
      forall j | 0 <= j < |front|
        ensures front[j] == rs[j]
      {
      }
    }
  }

  /** With the parameters built for a resource type, resources are filed
      only under operations that the type supports. */
  lemma {:induction false} PlacedOps(rt: RsrcType, lists: map<string, seq<Regexp>>, rs: seq<Rsrc>, op: string)
    requires FreqsKnown(Freqs, lists)
    ensures op in Placed(ParamsTagsFor(rt, lists), rs) ==> op in CapabsFind(rt)
    decreases |rs|
  {
    var pt := ParamsTagsFor(rt, lists);
    if rs != [] {
      PlacedOps(rt, lists, rs[..|rs| - 1], op);
      var x := rs[|rs| - 1];
      if OpOf(pt, x.tags) == Some(op) {
        var s := TentativeOf(pt, x.tags);
        ResolveIff(rt, lists, s, op);
        if s in OpSetToOpTable(rt) {
          TableWellFormed(rt, s);
        }
      }
    }
  }
}
