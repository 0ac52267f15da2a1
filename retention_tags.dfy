/** Tags of the backup retention program: conversion between boto3's list
    of Key/Value pairs and a dict, the user's tag rules, and the argument
    check of the tagging call. */
module RetentionTags {
  import opened Wrappers

  /** A boto3 `{"Key": ..., "Value": ...}` pair. */
  datatype Pair = Pair(key: string, value: string)

  /** `tag_pairs_to_dict`: a later pair overwrites an earlier one with the
      same key. */
  function TagPairsToDict(pairs: seq<Pair>): map<string, string>
    decreases |pairs|
  {
    if pairs == [] then map[]
    else TagPairsToDict(pairs[..|pairs| - 1])[pairs[|pairs| - 1].key := pairs[|pairs| - 1].value]
  }

  predicate DistinctKeys(pairs: seq<Pair>) {
    forall i, j :: 0 <= i < j < |pairs| ==> pairs[i].key != pairs[j].key
  }

  /** `pairs` lists the items of `d`, each once. */
  predicate ListsItems(pairs: seq<Pair>, d: map<string, string>) {
    && DistinctKeys(pairs)
    && (forall i :: 0 <= i < |pairs| ==> pairs[i].key in d && d[pairs[i].key] == pairs[i].value)
    && (forall k :: k in d ==> exists i :: 0 <= i < |pairs| && pairs[i].key == k)
  }

  /** `tags_dict_to_pairs`: one pair per item, in the dict's order, which
      the model leaves open. */
  method TagsDictToPairs(d: map<string, string>) returns (pairs: seq<Pair>)
    ensures ListsItems(pairs, d)
  {
    pairs := [];
    var todo := d.Keys;
    while todo != {}
      invariant todo <= d.Keys
      invariant DistinctKeys(pairs)
      invariant forall i :: 0 <= i < |pairs| ==> pairs[i].key in d && pairs[i].key !in todo && d[pairs[i].key] == pairs[i].value
      invariant forall k :: k in d && k !in todo ==> exists i :: 0 <= i < |pairs| && pairs[i].key == k
      decreases |todo|
    {
      var k :| k in todo;
      ghost var before := pairs;
      pairs := pairs + [Pair(k, d[k])];
      todo := todo - {k};
      assert pairs[|before|].key == k;
      assert forall i :: 0 <= i < |before| ==> pairs[i] == before[i];
    }
  }

  /** A key is in the dict exactly when some pair has it, and its value is
      that of the last such pair. */
  lemma {:induction false} TagPairsToDictAt(pairs: seq<Pair>, k: string)
    ensures k in TagPairsToDict(pairs) <==> exists i :: 0 <= i < |pairs| && pairs[i].key == k
    ensures forall i :: 0 <= i < |pairs| && pairs[i].key == k && (forall j :: i < j < |pairs| ==> pairs[j].key != k) ==>
              TagPairsToDict(pairs)[k] == pairs[i].value
    decreases |pairs|
  {
    if pairs != [] {
      var front := pairs[..|pairs| - 1];
      TagPairsToDictAt(front, k);
      forall i | 0 <= i < |front|
        ensures front[i] == pairs[i]
      {
      }
    }
  }

  /** Converting a dict to pairs and back gives the dict. */
  lemma TagsRoundTrip(d: map<string, string>, pairs: seq<Pair>)
    requires ListsItems(pairs, d)
    ensures TagPairsToDict(pairs) == d
  {
    var r := TagPairsToDict(pairs);
    forall k | k in d
      ensures k in r && r[k] == d[k]
    {
      TagPairsToDictAt(pairs, k);
      var i :| 0 <= i < |pairs| && pairs[i].key == k;
      assert forall j :: i < j < |pairs| ==> pairs[j].key != k;
    }
    forall k | k in r
      ensures k in d
    {
      TagPairsToDictAt(pairs, k);
    }
  }

  // ---------------------------------------------------------------------
  // tags_post_filter_fn_get

  /** `all([...])` over the (key, values) rules. */
  function AllPairsHold(rules: seq<(string, seq<string>)>, tags: map<string, string>): bool
    decreases |rules|
  {
    if rules == [] then true
    else
      var (k, vals) := rules[0];
      (k in tags && (vals == [] || tags[k] in vals)) && AllPairsHold(rules[1..], tags)
  }

  /** `any([tags.keys().isdisjoint(s) for s in ...])`. */
  function AnyDisjoint(sets: seq<set<string>>, tags: map<string, string>): bool
    decreases |sets|
  {
    if sets == [] then false else tags.Keys !! sets[0] || AnyDisjoint(sets[1..], tags)
  }

  /** The lambda `tags_post_filter_fn_get` returns; with no rule at all the
      lambda that always accepts. */
  function TagsPostFilter(tagKeysSets: seq<set<string>>, noTagKeysSet: set<string>,
                          tagKeyValsPairs: seq<(string, seq<string>)>, tags: map<string, string>): bool
  {
    if tagKeysSets != [] || noTagKeysSet != {} || tagKeyValsPairs != [] then
      AllPairsHold(tagKeyValsPairs, tags) && tags.Keys !! noTagKeysSet && !AnyDisjoint(tagKeysSets, tags)
    else true
  }

  lemma {:induction false} AllPairsHoldIff(rules: seq<(string, seq<string>)>, tags: map<string, string>)
    ensures AllPairsHold(rules, tags) <==>
              forall i :: 0 <= i < |rules| ==> rules[i].0 in tags && (rules[i].1 == [] || tags[rules[i].0] in rules[i].1)
    decreases |rules|
  {
    if rules != [] {
      AllPairsHoldIff(rules[1..], tags);
      assert forall i :: 1 <= i < |rules| ==> rules[i] == rules[1..][i - 1];
    }
  }

  lemma {:induction false} AnyDisjointIff(sets: seq<set<string>>, tags: map<string, string>)
    ensures !AnyDisjoint(sets, tags) <==> forall i :: 0 <= i < |sets| ==> exists k :: k in sets[i] && k in tags
    decreases |sets|
  {
    if sets != [] {
      AnyDisjointIff(sets[1..], tags);
      assert forall i :: 1 <= i < |sets| ==> sets[i] == sets[1..][i - 1];
      if !(tags.Keys !! sets[0]) {
        var k :| k in tags.Keys && k in sets[0];
      }
    }
  }

  /** The filter accepts exactly the tags that have every required key with
      one of its listed values (any value when none is listed), none of the
      forbidden keys, and at least one key of each key set; the shortcut
      for no rules at all agrees, so with no rules everything passes. */
  lemma TagsPostFilterIff(tagKeysSets: seq<set<string>>, noTagKeysSet: set<string>,
                          tagKeyValsPairs: seq<(string, seq<string>)>, tags: map<string, string>)
    ensures TagsPostFilter(tagKeysSets, noTagKeysSet, tagKeyValsPairs, tags) <==>
              && (forall i :: 0 <= i < |tagKeyValsPairs| ==>
                    tagKeyValsPairs[i].0 in tags &&
                    (tagKeyValsPairs[i].1 == [] || tags[tagKeyValsPairs[i].0] in tagKeyValsPairs[i].1))
              && (forall k :: k in noTagKeysSet ==> k !in tags)
              && (forall i :: 0 <= i < |tagKeysSets| ==> exists k :: k in tagKeysSets[i] && k in tags)
  {
    AllPairsHoldIff(tagKeyValsPairs, tags);
    AnyDisjointIff(tagKeysSets, tags);
  }

  // ---------------------------------------------------------------------
  // rsrcs_tag and rsrc_tag_op

  const TagDel := "managed-delete"

  /** `TAGS_DICT_DEL`. */
  const TagsDictDel: map<string, string> := map[TagDel := ""]

  /** Python truthiness of the optional `tags` argument. */
  predicate Truthy(tags: Option<map<string, string>>) {
    tags.Some? && tags.value != map[]
  }

  /** The argument check of `rsrc_tag_op`, then the lookup of the tag
      operation, which raises for an operation the tables do not have. */
  function TagOpCheck(rsrcId: string, op: string, tags: Option<map<string, string>>): Result<string> {
    if rsrcId == "" || (op == "get" && Truthy(tags)) || ((op == "add" || op == "del") && !Truthy(tags)) then
      Err(ValueError("rsrc_tag_op"))
    else if op != "get" && op != "add" && op != "del" then Err(KeyError(op))
    else Ok(op)
  }

  /** `ValueError` exactly for an empty ID, `get` with tags, or `add` or
      `del` without; an unknown operation then fails its lookup. */
  lemma TagOpCheckIff(rsrcId: string, op: string, tags: Option<map<string, string>>)
    ensures TagOpCheck(rsrcId, op, tags).Err? && TagOpCheck(rsrcId, op, tags).error.ValueError? <==>
              rsrcId == "" || (op == "get" && Truthy(tags)) || ((op == "add" || op == "del") && !Truthy(tags))
    ensures TagOpCheck(rsrcId, op, tags).Ok? <==>
              rsrcId != "" && ((op == "get" && !Truthy(tags)) || ((op == "add" || op == "del") && Truthy(tags)))
  {
  }

  /** The calls `rsrcs_tag` makes, with `TAGS_DICT_DEL`, pass the check for
      any resource with an ID. */
  lemma RsrcsTagCallsPass(rsrcId: string)
    requires rsrcId != ""
    ensures TagOpCheck(rsrcId, "add", Some(TagsDictDel)) == Ok("add")
    ensures TagOpCheck(rsrcId, "del", Some(TagsDictDel)) == Ok("del")
  {
    assert TagDel in TagsDictDel;
  }
}
