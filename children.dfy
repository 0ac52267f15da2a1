/** Child resources (images and snapshots) of the operations that create
    one: their names, the tags passed on to them, the RDS snapshot ARN of
    the two-step tagging, and the queue message of the second revision. */
module Children {
  import opened Wrappers
  import opened Text
  import opened Schedule
  import opened Operations

  // ---------------------------------------------------------------------
  // PARAMS_CHILD

  datatype ChildType = ImageChild | SnapshotChild | DBSnapshotChild

  /** `child_rsrc_type` of an operation, when it creates a child. */
  function ChildOf(rt: RsrcType, op: string): Option<ChildType> {
    match rt
    case Instance => if op == Image || op == RebootImage then Some(ImageChild) else None
    case Volume => if op == Snapshot then Some(SnapshotChild) else None
    case DBInstance => if op == Snapshot || op == SnapshotStop then Some(DBSnapshotChild) else None
  }

  /** `name_len_max`. */
  function NameLenMax(c: ChildType): nat {
    match c
    case ImageChild => 128
    case SnapshotChild => 255
    case DBSnapshotChild => 255
  }

  predicate IsAsciiLetter(ch: char) {
    'a' <= ch <= 'z' || 'A' <= ch <= 'Z'
  }

  /** `\w`, read as ASCII. */
  predicate IsWordChar(ch: char) {
    IsAsciiLetter(ch) || IsDigit(ch) || ch == '_'
  }

  /** A character that `name_chars_unsafe_regexp` does not match; a snapshot
      has no such regexp, so every character is safe in its name. */
  predicate NameCharSafe(c: ChildType, ch: char) {
    match c
    case ImageChild =>
      IsAsciiLetter(ch) || IsDigit(ch) || ch in {'(', ')', '[', ']', ' ', '.', '/', '-', '\'', '@', '_'}
    case SnapshotChild => true
    case DBSnapshotChild => IsWordChar(ch) || ch in {'.', ':', '/', '=', '+', '-'}
  }

  predicate NameSafe(c: ChildType, s: string) {
    forall i :: 0 <= i < |s| ==> NameCharSafe(c, s[i])
  }

  /** `name_char_fill`. */
  const NameCharFill: char := 'X'

  /** `name_chars_unsafe_regexp.sub(name_char_fill, s)` where the child type
      has the regexp, `s` unchanged where it has none. */
  function Sanitize(c: ChildType, s: string): (r: string)
    ensures |r| == |s|
    decreases |s|
  {
    if s == [] then [] else [if NameCharSafe(c, s[0]) then s[0] else NameCharFill] + Sanitize(c, s[1..])
  }

  /** Each character is kept when safe and replaced by the fill otherwise. */
  lemma {:induction false} SanitizeAt(c: ChildType, s: string, i: nat)
    requires i < |s|
    ensures Sanitize(c, s)[i] == if NameCharSafe(c, s[i]) then s[i] else NameCharFill
    decreases |s|
  {
    if i > 0 {
      SanitizeAt(c, s[1..], i - 1);
    }
  }

  /** The result of the substitution has no unsafe character, and a safe
      string is left alone, so substituting twice is substituting once. */
  lemma SanitizeSafe(c: ChildType, s: string)
    ensures NameSafe(c, Sanitize(c, s))
    ensures NameSafe(c, s) ==> Sanitize(c, s) == s
    ensures Sanitize(c, Sanitize(c, s)) == Sanitize(c, s)
  {
    var r := Sanitize(c, s);
    forall i | 0 <= i < |r|
      ensures NameCharSafe(c, r[i])
    {
      SanitizeAt(c, s, i);
    }
    SanitizeSafeId(c, r);
    SanitizeSafeId(c, s);
  }

  lemma {:induction false} SanitizeSafeId(c: ChildType, s: string)
    ensures NameSafe(c, s) ==> Sanitize(c, s) == s
    decreases |s|
  {
    if s != [] && NameSafe(c, s) {
      assert NameCharSafe(c, s[0]);
      assert NameSafe(c, s[1..]) by {
        forall i | 0 <= i < |s[1..]|
          ensures NameCharSafe(c, s[1..][i])
        {
          assert s[1..][i] == s[i + 1];
        }
      }
      SanitizeSafeId(c, s[1..]);
    }
  }

  lemma {:induction false} SanitizeAppend(c: ChildType, a: string, b: string)
    ensures Sanitize(c, a + b) == Sanitize(c, a) + Sanitize(c, b)
    decreases |a|
  {
    if a != [] {
      assert (a + b)[1..] == a[1..] + b;
      SanitizeAppend(c, a[1..], b);
    } else {
      assert a + b == b;
    }
  }

  // ---------------------------------------------------------------------
  // child_name_get

  /** The parent's `Name` tag when it has a non-empty one, its ID otherwise. */
  function ParentLabel(parentId: string, nameFromTag: string): string {
    if nameFromTag != "" then nameFromTag else parentId
  }

  function Min(a: nat, b: nat): nat {
    if a <= b then a else b
  }

  /** `child_name_get` with the default prefix `zm` and delimiter `-`;
      `suffix` stands for the random `unique_suffix()`. */
  function ChildName(parentId: string, nameFromTag: string, dateTimeStr: string, c: ChildType, suffix: string): (r: string)
    ensures |r| <= NameLenMax(c)
    ensures NameSafe(c, r)
    ensures "zm-" <= r
  {
    var tentative := Join(["zm", ParentLabel(parentId, nameFromTag), dateTimeStr, suffix], '-');
    var name := Sanitize(c, tentative);
    ChildNameParts(ParentLabel(parentId, nameFromTag), dateTimeStr, c, suffix);
    SanitizeSafe(c, tentative);
    name[..Min(|name|, NameLenMax(c))]
  }

  /** The name joins, after substitution, `zm`, the parent's label, the
      date string and the suffix with `-`, cut to `name_len_max`. */
  lemma ChildNameParts(lbl: string, dateTimeStr: string, c: ChildType, suffix: string)
    ensures Sanitize(c, Join(["zm", lbl, dateTimeStr, suffix], '-')) ==
              "zm-" + (Sanitize(c, lbl) + ("-" + (Sanitize(c, dateTimeStr) + ("-" + Sanitize(c, suffix)))))
  {
    JoinName(lbl, dateTimeStr, suffix);
    SanitizeName(lbl, dateTimeStr, c, suffix);
  }

  lemma JoinName(lbl: string, dateTimeStr: string, suffix: string)
    ensures Join(["zm", lbl, dateTimeStr, suffix], '-') == "zm-" + (lbl + ("-" + (dateTimeStr + ("-" + suffix))))
  {
    var parts := ["zm", lbl, dateTimeStr, suffix];
    assert parts[1..] == [lbl, dateTimeStr, suffix];
    Join3(lbl, dateTimeStr, suffix, '-');
    var j := Join(parts[1..], '-');
    assert j == lbl + ("-" + (dateTimeStr + ("-" + suffix)));
    assert Join(parts, '-') == "zm" + "-" + j;
  }

  lemma SanitizeName(lbl: string, dateTimeStr: string, c: ChildType, suffix: string)
    ensures Sanitize(c, "zm-" + (lbl + ("-" + (dateTimeStr + ("-" + suffix))))) ==
              "zm-" + (Sanitize(c, lbl) + ("-" + (Sanitize(c, dateTimeStr) + ("-" + Sanitize(c, suffix)))))
  {
    assert NameSafe(c, "zm-") && NameSafe(c, "-");
    var e1 := "-" + suffix;
    SanitizeKeep(c, "-", suffix);
    var e2 := dateTimeStr + e1;
    SanitizeAppend(c, dateTimeStr, e1);
    var e3 := "-" + e2;
    SanitizeKeep(c, "-", e2);
    var e4 := lbl + e3;
    SanitizeAppend(c, lbl, e3);
    SanitizeKeep(c, "zm-", e4);
  }

  /** A safe prefix passes through the substitution unchanged. */
  lemma SanitizeKeep(c: ChildType, a: string, b: string)
    requires NameSafe(c, a)
    ensures Sanitize(c, a + b) == a + Sanitize(c, b)
  {
    SanitizeAppend(c, a, b);
    SanitizeSafe(c, a);
  }

  /** When nothing is unsafe and the name is short enough, it is exactly
      `zm-<label>-<date>-<suffix>`, with the parent's name as its label
      whenever the parent has one. */
  lemma ChildNameWhole(parentId: string, nameFromTag: string, dateTimeStr: string, c: ChildType, suffix: string)
    requires NameSafe(c, ParentLabel(parentId, nameFromTag)) && NameSafe(c, dateTimeStr) && NameSafe(c, suffix)
    requires |ParentLabel(parentId, nameFromTag)| + |dateTimeStr| + |suffix| + 5 <= NameLenMax(c)
    ensures ChildName(parentId, nameFromTag, dateTimeStr, c, suffix) ==
              "zm-" + (ParentLabel(parentId, nameFromTag) + ("-" + (dateTimeStr + ("-" + suffix))))
  {
    var lbl := ParentLabel(parentId, nameFromTag);
    ChildNameParts(lbl, dateTimeStr, c, suffix);
    SanitizeSafe(c, lbl);
    SanitizeSafe(c, dateTimeStr);
    SanitizeSafe(c, suffix);
    var name := "zm-" + (lbl + ("-" + (dateTimeStr + ("-" + suffix))));
    assert name[..|name|] == name;
  }

  /** Whatever the lengths, the name is a prefix of the whole sanitised
      name `zm-<label>-<date>-<suffix>`. */
  lemma ChildNamePrefix(parentId: string, nameFromTag: string, dateTimeStr: string, c: ChildType, suffix: string)
    ensures var lbl := ParentLabel(parentId, nameFromTag);
            ChildName(parentId, nameFromTag, dateTimeStr, c, suffix) <=
              "zm-" + (Sanitize(c, lbl) + ("-" + (Sanitize(c, dateTimeStr) + ("-" + Sanitize(c, suffix)))))
  {
    ChildNameParts(ParentLabel(parentId, nameFromTag), dateTimeStr, c, suffix);
  }

  /** The name is cut at `name_len_max` and nowhere else: it is as long as
      the whole name `zm-<label>-<date>-<suffix>` when that fits, and
      exactly `name_len_max` long otherwise. With `ChildNamePrefix`, this
      makes it the whole sanitised name's first `name_len_max` characters. */
  lemma ChildNameLength(parentId: string, nameFromTag: string, dateTimeStr: string, c: ChildType, suffix: string)
    ensures |ChildName(parentId, nameFromTag, dateTimeStr, c, suffix)| ==
              Min(|ParentLabel(parentId, nameFromTag)| + |dateTimeStr| + |suffix| + 5, NameLenMax(c))
  {
    JoinName(ParentLabel(parentId, nameFromTag), dateTimeStr, suffix);
  }

  /** The label is the parent's name when it has a non-empty one, its ID
      otherwise. */
  lemma ParentLabelChoice(parentId: string, nameFromTag: string)
    ensures nameFromTag != "" ==> ParentLabel(parentId, nameFromTag) == nameFromTag
    ensures nameFromTag == "" ==> ParentLabel(parentId, nameFromTag) == parentId
  {
  }

  /** The date string of names, `DATE_CHARS_UNSAFE_REGEXP.sub("", ...)` of
      the tracking string. */
  function DateSafe(t: RunTime): string
    requires t.Valid()
  {
    RemoveChars(TrackString(t), {'-', ':'})
  }

  /** The date string of names is `%Y%m%dT%H%MZ`. */
  lemma DateSafeShape(t: RunTime)
    requires t.Valid()
    ensures DateSafe(t) == NatToString(t.year) + Pad2(t.month) + Pad2(t.day) + "T" + Pad2(t.hour) + Pad2(t.minute) + "Z"
  {
    var y, mo, d, h, mi := NatToString(t.year), Pad2(t.month), Pad2(t.day), Pad2(t.hour), Pad2(t.minute);
    DigitsKept(y);
    DigitsKept(mo);
    DigitsKept(d);
    DigitsKept(h);
    DigitsKept(mi);
    RemoveDateSeparators(y, mo, d, h, mi);
  }

  lemma RemoveDateSeparators(y: string, mo: string, d: string, h: string, mi: string)
    requires NoneIn(y, {'-', ':'}) && NoneIn(mo, {'-', ':'}) && NoneIn(d, {'-', ':'})
    requires NoneIn(h, {'-', ':'}) && NoneIn(mi, {'-', ':'})
    ensures RemoveChars(y + "-" + mo + "-" + d + "T" + h + ":" + mi + "Z", {'-', ':'}) ==
              y + mo + d + "T" + h + mi + "Z"
  {
    var cs := {'-', ':'};
    RemoveCharsNone(y, cs);
    var p1 := y + "-";
    assert RemoveChars(p1, cs) == y by { RemoveSnocDrop(y, '-'); }
    var p2 := p1 + mo;
    assert RemoveChars(p2, cs) == y + mo by { RemoveSnocKeep(p1, mo); }
    var p3 := p2 + "-";
    assert RemoveChars(p3, cs) == y + mo by { RemoveSnocDrop(p2, '-'); }
    var p4 := p3 + d;
    assert RemoveChars(p4, cs) == y + mo + d by { RemoveSnocKeep(p3, d); }
    var p5 := p4 + "T";
    assert RemoveChars(p5, cs) == y + mo + d + "T" by { assert NoneIn("T", cs); RemoveSnocKeep(p4, "T"); }
    var p6 := p5 + h;
    assert RemoveChars(p6, cs) == y + mo + d + "T" + h by { RemoveSnocKeep(p5, h); }
    var p7 := p6 + ":";
    assert RemoveChars(p7, cs) == y + mo + d + "T" + h by { RemoveSnocDrop(p6, ':'); }
    var p8 := p7 + mi;
    assert RemoveChars(p8, cs) == y + mo + d + "T" + h + mi by { RemoveSnocKeep(p7, mi); }
    assert NoneIn("Z", cs);
    RemoveSnocKeep(p8, "Z");
  }

  lemma RemoveSnocKeep(a: string, b: string)
    requires NoneIn(b, {'-', ':'})
    ensures RemoveChars(a + b, {'-', ':'}) == RemoveChars(a, {'-', ':'}) + b
  {
    RemoveCharsAppend(a, b, {'-', ':'});
    RemoveCharsNone(b, {'-', ':'});
  }

  lemma RemoveSnocDrop(a: string, ch: char)
    requires ch == '-' || ch == ':'
    ensures RemoveChars(a + [ch], {'-', ':'}) == RemoveChars(a, {'-', ':'})
  {
    RemoveCharsAppend(a, [ch], {'-', ':'});
    assert RemoveChars([ch], {'-', ':'}) == [];
    assert RemoveChars(a, {'-', ':'}) + [] == RemoveChars(a, {'-', ':'});
  }

  lemma DigitsKept(s: string)
    requires AllDigits(s)
    ensures NoneIn(s, {'-', ':'})
  {
  }

  // ---------------------------------------------------------------------
  // child_id_get_rds_snapshot

  /** The ARN of the snapshot that `stop_db_instance` made, from its
      response `resp` (dicts of strings): the instance ARN with its last
      two `:`-fields replaced by `snapshot` and the child name. An ARN
      without `:` makes the assignment to `arn_parts[-2]` raise. */
  function RdsSnapshotId(resp: map<string, map<string, string>>, childName: string): Result<string> {
    if childName == "" then Ok("")
    else
      var parentArn := if "DBInstance" in resp && "DBInstanceArn" in resp["DBInstance"]
                       then resp["DBInstance"]["DBInstanceArn"] else "";
      if parentArn == "" then Ok("")
      else
        var parts := Split(parentArn, {':'});
        if |parts| < 2 then Err(IndexError("list assignment index out of range"))
        else Ok(Join(parts[..|parts| - 2] + ["snapshot", childName], ':'))
  }

  function ArnOf(resp: map<string, map<string, string>>): string {
    if "DBInstance" in resp && "DBInstanceArn" in resp["DBInstance"] then resp["DBInstance"]["DBInstanceArn"] else ""
  }

  /** No child name or no ARN gives the empty ID; an ARN without `:` raises;
      otherwise the ID keeps every field of the ARN but the last two, which
      become `snapshot` and the child name. */
  lemma RdsSnapshotIdCases(resp: map<string, map<string, string>>, childName: string)
    ensures childName == "" || ArnOf(resp) == "" ==> RdsSnapshotId(resp, childName) == Ok("")
    ensures childName != "" && ArnOf(resp) != "" && NoneIn(ArnOf(resp), {':'}) ==>
              RdsSnapshotId(resp, childName).Err?
    ensures childName != "" && !NoneIn(ArnOf(resp), {':'}) && NoneIn(childName, {':'}) ==>
              var parts := Split(ArnOf(resp), {':'});
              && RdsSnapshotId(resp, childName).Ok?
              && Split(RdsSnapshotId(resp, childName).value, {':'}) == parts[..|parts| - 2] + ["snapshot", childName]
  {
    var arn := ArnOf(resp);
    if childName != "" && arn != "" {
      var parts := Split(arn, {':'});
      if NoneIn(arn, {':'}) {
        SplitNoSep(arn, {':'});
      } else if NoneIn(childName, {':'}) {
        SplitSingle(arn, ':');
        var fields := parts[..|parts| - 2] + ["snapshot", childName];
        forall k | 0 <= k < |fields|
          ensures NoneIn(fields[k], {':'})
        {
          if k < |parts| - 2 {
            assert fields[k] == parts[k];
          }
        }
        SplitJoin(fields, ':', {':'});
      }
    }
  }

  // ---------------------------------------------------------------------
  // Special child tags

  /** The tags `ops_perform` and `rsrcs_get` add for every child, in order. */
  function SpecialTags(nameFromTag: string, rsrcId: string, op: string, dateTimeNormStr: string, childName: string): seq<Tag> {
    [Tag(TagKeyJoin(["parent-name"]), nameFromTag),
     Tag(TagKeyJoin(["parent-id"]), rsrcId),
     Tag(TagKeyJoin(["origin"]), op),
     Tag(TagKeyJoin(["date-time"]), dateTimeNormStr),
     Tag("Name", childName)]
  }

  lemma SpecialKeys()
    ensures TagKeyJoin(["parent-name"]) == "managed-parent-name"
    ensures TagKeyJoin(["parent-id"]) == "managed-parent-id"
    ensures TagKeyJoin(["origin"]) == "managed-origin"
    ensures TagKeyJoin(["date-time"]) == "managed-date-time"
  {
    assert Join(["parent-name"], '-') == "parent-name";
    assert Join(["parent-id"], '-') == "parent-id";
    assert Join(["origin"], '-') == "origin";
    assert Join(["date-time"], '-') == "date-time";
  }

  /** The entry of `rsrcs[op]` that `ops_perform` of the first revision
      works on: its child tags are a list, extended in place. */
  class ParentEntry {
    var nameFromTag: string
    var childTags: seq<Tag>

    constructor (nameFromTag: string, childTags: seq<Tag>)
      ensures this.nameFromTag == nameFromTag && this.childTags == childTags
    {
      this.nameFromTag := nameFromTag;
      this.childTags := childTags;
    }

    /** `rsrc["child_tags"].extend([...])`: the user's tags stay first and
        unchanged, the five special tags follow. */
    method ExtendSpecialTags(rsrcId: string, op: string, dateTimeNormStr: string, childName: string)
      modifies this
      ensures nameFromTag == old(nameFromTag)
      ensures childTags == old(childTags) + SpecialTags(nameFromTag, rsrcId, op, dateTimeNormStr, childName)
    {
      childTags := childTags + SpecialTags(nameFromTag, rsrcId, op, dateTimeNormStr, childName);
    }
  }

  /** The special tags as a dict, for the second revision. */
  function SpecialMap(nameFromTag: string, rsrcId: string, op: string, dateTimeNormStr: string, childName: string): map<string, string> {
    map[TagKeyJoin(["parent-name"]) := nameFromTag,
        TagKeyJoin(["parent-id"]) := rsrcId,
        TagKeyJoin(["origin"]) := op,
        TagKeyJoin(["date-time"]) := dateTimeNormStr,
        "Name" := childName]
  }

  /** `msg["child_tags"].update({...})`: the special tags override a user
      tag with the same key, and every other user tag is kept. */
  lemma MergeSpecialOverrides(childTags: map<string, string>, nameFromTag: string, rsrcId: string, op: string,
                              dateTimeNormStr: string, childName: string, k: string)
    ensures var sp := SpecialMap(nameFromTag, rsrcId, op, dateTimeNormStr, childName);
            var m := childTags + sp;
            && (k in m <==> k in childTags || k in sp)
            && (k in sp ==> m[k] == sp[k])
            && (k !in sp && k in childTags ==> m[k] == childTags[k])
  {
  }

  lemma SpecialMapValues(nameFromTag: string, rsrcId: string, op: string, dateTimeNormStr: string, childName: string)
    ensures var sp := SpecialMap(nameFromTag, rsrcId, op, dateTimeNormStr, childName);
            && sp.Keys == {"managed-parent-name", "managed-parent-id", "managed-origin", "managed-date-time", "Name"}
            && sp["managed-parent-id"] == rsrcId
            && sp["managed-origin"] == op
            && sp["managed-date-time"] == dateTimeNormStr
            && sp["Name"] == childName
  {
    SpecialKeys();
  }

  // ---------------------------------------------------------------------
  // Operation calls: method names, keyword arguments, two-step tagging

  /** A keyword argument value of a boto3 call. */
  datatype KwVal = KStr(str: string) | KBool(flag: bool) | KIds(ids: seq<string>)
                 | KTagList(tagList: seq<Tag>) | KTagMap(tagMap: map<string, string>)

  /** `op_method_name`. */
  function OpMethodName(rt: RsrcType, op: string): string
    requires op in CapabsFind(rt)
  {
    match rt
    case Instance =>
      if op == Start then "start_instances"
      else if op == Reboot then "reboot_instances"
      else if op == Stop then "stop_instances"
      else "create_image"
    case Volume => "create_snapshot"
    case DBInstance =>
      if op == Start then "start_db_instance"
      else if op == Reboot || op == RebootFailover then "reboot_db_instance"
      else if op == Snapshot then "create_db_snapshot"
      else "stop_db_instance"
  }

  /** The keyword that names the resource in the operation's call. */
  function IdArg(rt: RsrcType, op: string): string {
    match rt
    case Instance => if op == Image || op == RebootImage then "InstanceId" else "InstanceIds"
    case Volume => "VolumeId"
    case DBInstance => "DBInstanceIdentifier"
  }

  /** `op_kwargs(rsrc_id)`. */
  function OpKwargs(rt: RsrcType, op: string, rsrcId: string): map<string, KwVal>
    requires op in CapabsFind(rt)
  {
    match rt
    case Instance =>
      if op == Image then map["InstanceId" := KStr(rsrcId), "NoReboot" := KBool(true)]
      else if op == RebootImage then map["InstanceId" := KStr(rsrcId), "NoReboot" := KBool(false)]
      else map["InstanceIds" := KIds([rsrcId])]
    case Volume => map["VolumeId" := KStr(rsrcId)]
    case DBInstance =>
      if op == Reboot then map["DBInstanceIdentifier" := KStr(rsrcId), "ForceFailover" := KBool(false)]
      else if op == RebootFailover then map["DBInstanceIdentifier" := KStr(rsrcId), "ForceFailover" := KBool(true)]
      else map["DBInstanceIdentifier" := KStr(rsrcId)]
  }

  /** Every call names exactly the one resource (as a one-item list for the
      EC2 instance calls that take lists), and its other arguments are flags:
      `NoReboot` only on the image operations, true for `image` alone, and
      `ForceFailover` only on the RDS reboots, true for `reboot-failover`
      alone. */
  lemma OpKwargsMeaning(rt: RsrcType, op: string, rsrcId: string)
    requires op in CapabsFind(rt)
    ensures var kw := OpKwargs(rt, op, rsrcId);
            && IdArg(rt, op) in kw
            && kw[IdArg(rt, op)] == (if IdArg(rt, op) == "InstanceIds" then KIds([rsrcId]) else KStr(rsrcId))
            && (forall k :: k in kw && k != IdArg(rt, op) ==> kw[k].KBool?)
            && ("NoReboot" in kw <==> rt == Instance && (op == Image || op == RebootImage))
            && ("NoReboot" in kw ==> kw["NoReboot"] == KBool(op == Image))
            && ("ForceFailover" in kw <==> rt == DBInstance && (op == Reboot || op == RebootFailover))
            && ("ForceFailover" in kw ==> kw["ForceFailover"] == KBool(op == RebootFailover))
  {
  }

  /** `child_name_kwargs(child_name)`. */
  function ChildNameKwargs(c: ChildType, childName: string): map<string, KwVal> {
    match c
    case ImageChild => map["Name" := KStr(childName), "Description" := KStr(childName)]
    case SnapshotChild => map["Description" := KStr(childName)]
    case DBSnapshotChild => map["DBSnapshotIdentifier" := KStr(childName)]
  }

  /** `child_tag_default`. */
  function ChildTagDefault(c: ChildType): bool {
    c != DBSnapshotChild
  }

  /** `two_step_tag`: `child_tag_default_override` (set, to true, for
      `snapshot-stop` alone) or else the child type's default. */
  function TwoStep(rt: RsrcType, op: string): bool {
    match ChildOf(rt, op)
    case None => false
    case Some(c) => if rt == DBInstance && op == SnapshotStop then true else ChildTagDefault(c)
  }

  /** Only a snapshot made by `create_db_snapshot` is tagged when it is
      created; every other child is tagged in a second call. */
  lemma TwoStepIff(rt: RsrcType, op: string)
    ensures TwoStep(rt, op) <==> ChildOf(rt, op).Some? && !(rt == DBInstance && op == Snapshot)
  {
  }

  /** `child_id_key`, present for the EC2 children only. */
  function ChildIdKey(c: ChildType): Option<string> {
    match c
    case ImageChild => Some("ImageId")
    case SnapshotChild => Some("SnapshotId")
    case DBSnapshotChild => None
  }

  /** `tags_set_method_name` of the resource type's service. */
  function TagsSetMethodName(rt: RsrcType): string {
    if Svc(rt) == "ec2" then "create_tags" else "add_tags_to_resource"
  }

  /** The arguments of a call in the first revision: the operation's own,
      the child name ones, and the child tag list unless the child is
      tagged in a second step. */
  function CallKwargs(rt: RsrcType, op: string, rsrcId: string, childName: string, childTags: KwVal): map<string, KwVal>
    requires op in CapabsFind(rt)
  {
    match ChildOf(rt, op)
    case None => OpKwargs(rt, op, rsrcId)
    case Some(c) =>
      var kw := OpKwargs(rt, op, rsrcId) + ChildNameKwargs(c, childName);
      if TwoStep(rt, op) then kw else kw["Tags" := childTags]
  }

  /** The call carries `Tags` exactly when it creates a child that is not
      tagged in a second step, and then they are the child tags; it names
      the child exactly when it creates one, and keeps the resource's
      keyword. */
  lemma CallKwargsMeaning(rt: RsrcType, op: string, rsrcId: string, childName: string, childTags: KwVal)
    requires op in CapabsFind(rt)
    ensures var kw := CallKwargs(rt, op, rsrcId, childName, childTags);
            && ("Tags" in kw <==> ChildOf(rt, op).Some? && !TwoStep(rt, op))
            && ("Tags" in kw ==> kw["Tags"] == childTags)
            && (ChildOf(rt, op).Some? ==> forall k :: k in ChildNameKwargs(ChildOf(rt, op).value, childName) ==>
                  k in kw && kw[k] == KStr(childName))
            && (ChildOf(rt, op).None? ==> kw == OpKwargs(rt, op, rsrcId))
            && IdArg(rt, op) in kw && kw[IdArg(rt, op)] == OpKwargs(rt, op, rsrcId)[IdArg(rt, op)]
  {
    OpKwargsMeaning(rt, op, rsrcId);
  }

  /** The date string with `DATE_CHARS_UNSAFE_REGEXP` removed. */
  function NameDate(dateTimeNormStr: string): string {
    RemoveChars(dateTimeNormStr, {'-', ':'})
  }

  /** The per-resource step of `ops_perform` before the call. */
  method PrepareCall(entry: ParentEntry, rt: RsrcType, op: string, rsrcId: string, dateTimeNormStr: string, suffix: string)
    returns (kwargs: map<string, KwVal>)
    requires op in CapabsFind(rt)
    modifies entry
    ensures entry.nameFromTag == old(entry.nameFromTag)
    ensures ChildOf(rt, op).None? ==> entry.childTags == old(entry.childTags) && kwargs == OpKwargs(rt, op, rsrcId)
    ensures ChildOf(rt, op).Some? ==>
              var childName := ChildName(rsrcId, entry.nameFromTag, NameDate(dateTimeNormStr), ChildOf(rt, op).value, suffix);
              && entry.childTags == old(entry.childTags) + SpecialTags(entry.nameFromTag, rsrcId, op, dateTimeNormStr, childName)
              && kwargs == CallKwargs(rt, op, rsrcId, childName, KTagList(entry.childTags))
  {
    var dateSafe := NameDate(dateTimeNormStr);
    kwargs := OpKwargs(rt, op, rsrcId);
    var child := ChildOf(rt, op);
    if child.Some? {
      var childName := ChildName(rsrcId, entry.nameFromTag, dateSafe, child.value, suffix);
      kwargs := kwargs + ChildNameKwargs(child.value, childName);
      entry.ExtendSpecialTags(rsrcId, op, dateTimeNormStr, childName);
      if !TwoStep(rt, op) {
        kwargs := kwargs["Tags" := KTagList(entry.childTags)];
      }
    }
  }

  // ---------------------------------------------------------------------
  // The queue message of the second revision

  /** What `rsrcs_get` sends for a resource with an operation. */
  datatype Msg = Msg(
    nameFromTag: string,
    childTags: map<string, string>,
    childIdKey: Option<string>,
    childTagMethodName: Option<string>,
    methodName: string,
    kwargs: map<string, KwVal>)

  /** The message for resource `rsrcId` of type `rt`, processed into `r`,
      on which `op` is to be performed. */
  function MsgOf(rt: RsrcType, op: string, rsrcId: string, r: RsrcResult<map<string, string>>,
                 dateTimeNormStr: string, suffix: string): (m: Msg)
    requires op in CapabsFind(rt)
    ensures m.nameFromTag == r.nameFromTag && m.methodName == OpMethodName(rt, op)
  {
    match ChildOf(rt, op)
    case None => Msg(r.nameFromTag, r.childTags, None, None, OpMethodName(rt, op), OpKwargs(rt, op, rsrcId))
    case Some(c) =>
      var two := TwoStep(rt, op);
      var childName := ChildName(rsrcId, r.nameFromTag, NameDate(dateTimeNormStr), c, suffix);
      var tags := r.childTags + SpecialMap(r.nameFromTag, rsrcId, op, dateTimeNormStr, childName);
      Msg(r.nameFromTag, tags,
          if two then ChildIdKey(c) else None,
          if two then Some(TagsSetMethodName(rt)) else None,
          OpMethodName(rt, op),
          CallKwargs(rt, op, rsrcId, childName, KTagMap(tags)))
  }

  /** The second call is announced exactly for two-step children, with the
      service's tagging method, and the key of the child's ID with it for
      the EC2 children. */
  lemma MsgSecondStep(rt: RsrcType, op: string, rsrcId: string, r: RsrcResult<map<string, string>>,
                      dateTimeNormStr: string, suffix: string)
    requires op in CapabsFind(rt)
    ensures var m := MsgOf(rt, op, rsrcId, r, dateTimeNormStr, suffix);
            && (m.childTagMethodName.Some? <==> TwoStep(rt, op))
            && (m.childTagMethodName.Some? ==> m.childTagMethodName.value == TagsSetMethodName(rt))
            && (m.childIdKey.Some? <==> TwoStep(rt, op) && rt != DBInstance)
  {
  }

  /** The message's call is the first revision's, with the merged child
      tags as `Tags` when they travel with it. */
  lemma MsgKwargs(rt: RsrcType, op: string, rsrcId: string, r: RsrcResult<map<string, string>>,
                  dateTimeNormStr: string, suffix: string)
    requires op in CapabsFind(rt)
    ensures var m := MsgOf(rt, op, rsrcId, r, dateTimeNormStr, suffix);
            && (ChildOf(rt, op).None? ==> m.kwargs == OpKwargs(rt, op, rsrcId))
            && (ChildOf(rt, op).Some? ==>
                  var childName := ChildName(rsrcId, r.nameFromTag, NameDate(dateTimeNormStr), ChildOf(rt, op).value, suffix);
                  m.kwargs == CallKwargs(rt, op, rsrcId, childName, KTagMap(m.childTags)))
  {
  }

  /** The message's child tags are the resource's, with the special tags
      merged over them when the operation creates a child. */
  lemma MsgChildTags(rt: RsrcType, op: string, rsrcId: string, r: RsrcResult<map<string, string>>,
                     dateTimeNormStr: string, suffix: string, k: string)
    requires op in CapabsFind(rt)
    ensures var m := MsgOf(rt, op, rsrcId, r, dateTimeNormStr, suffix);
            && (ChildOf(rt, op).None? ==> m.childTags == r.childTags)
            && (ChildOf(rt, op).Some? ==>
                  var childName := ChildName(rsrcId, r.nameFromTag, NameDate(dateTimeNormStr), ChildOf(rt, op).value, suffix);
                  var sp := SpecialMap(r.nameFromTag, rsrcId, op, dateTimeNormStr, childName);
                  && (k in m.childTags <==> k in r.childTags || k in sp)
                  && (k in sp ==> m.childTags[k] == sp[k])
                  && (k !in sp && k in r.childTags ==> m.childTags[k] == r.childTags[k]))
  {
    if ChildOf(rt, op).Some? {
      var childName := ChildName(rsrcId, r.nameFromTag, NameDate(dateTimeNormStr), ChildOf(rt, op).value, suffix);
      MergeSpecialOverrides(r.childTags, r.nameFromTag, rsrcId, op, dateTimeNormStr, childName, k);
    }
  }
}
