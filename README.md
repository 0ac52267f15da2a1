# aws-tag-sched-ops in Dafny

This project models two programs that act on AWS resources according to their tags.

The first is the tag scheduler, in two revisions:
- `Rev1` is `aws_tag_sched_ops_perform.py`. It performs the operations directly.
- `Rev2` is `aws-tag-sched-ops.py`, the "find" program. It queues one message per operation.

The scheduler runs every ten minutes.
- It floors the current time to a multiple of ten minutes.
- It compiles the schedule formats (`once`, `periodic`) into regexps for that time.
- For each described resource, it matches the `managed-<op>` enabling tags and the `managed-<op>-<freq>` schedule tags.
- It resolves the set of due operations through the `op_set_to_op` table to a single operation.
- It files the resource under that operation.

An operation that makes a child (an image or a snapshot) works in three steps.
1. The child name is built from `zm-`, the parent's label, the date and a suffix, with the unsafe characters replaced.
2. The child tags are copied from the parent, minus the reserved keys and values.
3. The special tags `managed-parent-name`, `managed-parent-id`, `managed-origin`, `managed-date-time` and `Name` are added.

`Rev2` also accepts `_` as a wildcard. It computes `end_epoch_str` and builds the queue message kwargs.

The second program is the backup retention program `age-backups.py`. It deals with:
- the conversion between tag pairs and dicts;
- the user's tag filter;
- date normalisation;
- ISO 8601 resolutions, repetitions and intervals;
- the retention ledger: a date-keyed dict whose entries are DEL, KEEP, BEGIN and END.
  `intervals_process` records the interval boundaries.
  `rsrcs_process` sweeps the dates in ascending order. It keeps the first backup of each parent in each open interval period.
  `rsrcs_tag` issues exactly one tagging call per backup.

Modules:
- `Wrappers`: `Option` and `Result`.
- `Text`: decimal strings, `Split`/`Join`, and delimiter tokens.
- `Schedule`: the run time, the strftime templates, the schedule regexps with two readings and the proof that the two agree, and `date_time_process`.
- `Operations`: the parameter tables, `CAPABS_FIND`, `params_tags` and `rsrc_process`.
- `Children`: child names, RDS snapshot IDs, special tags, call kwargs and queue messages.
- `Placement`: the `rsrcs_get` of `Rev1`.
- `RetentionTags`, `RetentionDates`, `RetentionIntervals` and `Retention`: `age-backups.py`.

The code and its prose sometimes disagree. The model follows the code in these places:
- A schedule `d=*,H:M=11:30` fires only on the runs from 11:30 to 11:39. A run at 11:24 is floored to 11:20, and its pattern `11:2\d` does not match `11:30` (`Schedule.ElevenThirtyNotBefore`). A reading in which 11:24 also fires does not match the code.
- The docstring of `duration_zero_remove` says that a duration whose elements are all zero becomes the empty string. The regexp substitution leaves `P`.
- `interval_resolution_get` takes the last element of a multi-element duration, without its `T`. `PT1H30M` therefore has resolution `P1M`, one month (`RetentionIntervals.IntervalResolutionMixed`).

## Model

| member | source | states |
|---|---|---|
| Schedule.FloorTen | aws_tag_sched_ops_perform.py:843-847 | the run time is floored to the ten minutes: minute a multiple of 10, at most 9 below the original, all other fields unchanged |
| Schedule.SchedRegexpLists | aws_tag_sched_ops_perform.py:135-145 | the compiled schedule regexps are keyed by exactly the two frequencies `once` and `periodic` |
| Schedule.DateTimeProcess | aws-tag-sched-ops.py:168-195 | returns regexps for both frequencies and the `%Y-%m-%dT%H:%MZ` tracking string; `end_epoch_str` is the decimal of (truncated timestamp + 600) * 1000 in `Rev2`, absent in `Rev1` |
| Schedule.TruncTowardZero | aws-tag-sched-ops.py:191-193 | `math.trunc`: the floor for a non-negative real and the ceiling for a negative one, so 0 for reals strictly between -1 and 1 |
| Schedule.EndEpochString | aws-tag-sched-ops.py:191-193 | a decimal integer string whose value is (trunc(timestamp) + 600) * 1000 |
| Schedule.EndEpochOfWholeSeconds | aws-tag-sched-ops.py:191-193 | for a whole-second timestamp, the end epoch is ten minutes later, in milliseconds |
| Schedule.SearchIsRegexpSearch | aws_tag_sched_ops_perform.py:137 | when no alternative holds a delimiter, the token-based search agrees with the position-based meaning of the regexp that wraps the alternatives in start-or-delimiter and delimiter-or-end |
| Schedule.ScheduleRegexpMeaning | aws_tag_sched_ops_perform.py:135-145 | every compiled schedule regexp of both revisions has the two readings agree |
| Schedule.FormatRegexpMeaning | aws_tag_sched_ops_perform.py:135-145 | the two readings agree for every regexp compiled from delimiter-free format groups |
| Schedule.CompileMinute | aws_tag_sched_ops_perform.py:105-109 | the rendered minute followed by `~` compiles to the minute pattern: the tens digit and any digit when the minute ends in 0, else the literal text |
| Schedule.CompileMarked | aws_tag_sched_ops_perform.py:139-142 | a template of plain items ending with the marked minute compiles to its literal rendering followed by the minute pattern |
| Schedule.DayGroupIff | aws_tag_sched_ops_perform.py:112 | a token matches an alternative of the day group exactly when it names today in one of the ways day parts can (`dTH:M`, `uTH:M`, `d=`, wildcard, `u=`) |
| Schedule.HourGroupIff | aws_tag_sched_ops_perform.py:113 | a token matches the hour group exactly when it supplies the current hour |
| Schedule.MinuteGroupIff | aws_tag_sched_ops_perform.py:114 | a token matches the minute group exactly when it supplies the current ten-minute slot |
| Schedule.OnceGroupIff | aws_tag_sched_ops_perform.py:111 | a token matches the once format exactly when it is the current `%Y-%m-%dT%H:%M` with any units digit of the minute |
| Schedule.SearchDayIff | aws_tag_sched_ops_perform.py:137 | the delimited day regexp finds a tag value exactly when one of its tokens supplies the day |
| Schedule.SearchHourIff | aws_tag_sched_ops_perform.py:137 | the delimited hour regexp finds a tag value exactly when one of its tokens supplies the hour |
| Schedule.SearchMinuteIff | aws_tag_sched_ops_perform.py:137 | the delimited minute regexp finds a tag value exactly when one of its tokens supplies the minute |
| Schedule.SearchOnceIff | aws_tag_sched_ops_perform.py:137 | the delimited once regexp finds a tag value exactly when one of its tokens is the current once time |
| Schedule.PeriodicMatchIff | aws_tag_sched_ops_perform.py:110-115 | a periodic schedule fires exactly when some tokens supply the day, the hour and the minute |
| Schedule.OnceMatchIff | aws_tag_sched_ops_perform.py:110-115 | a once schedule fires exactly when some token is the current once time |
| Schedule.MinuteUnitsDigitIgnored | aws_tag_sched_ops_perform.py:105-109 | `M=mm` supplies the minute exactly when mm has the tens digit of the floored minute |
| Schedule.TokensConcat | aws_tag_sched_ops_perform.py:117 | joining two values with a delimiter joins their token lists: delimiters may be mixed and repeated |
| Schedule.ConcatParts | aws_tag_sched_ops_perform.py:117 | day, hour, minute and once parts of a joined value are those of either half |
| Schedule.GarbageIgnored | aws_tag_sched_ops_perform.py:137 | appending a delimited token that supplies no part changes neither match |
| Schedule.WildcardsFireDaily | aws_tag_sched_ops_perform.py:112-114 | `d=*,H=*,M=mm` fires at minute mm of every hour, in both revisions |
| Schedule.UnderscoreWildcard | aws-tag-sched-ops.py:155-156 | in `Rev2`, `_` is a day and hour wildcard |
| Schedule.UnderscoreUnknownInRev1 | aws_tag_sched_ops_perform.py:112-113 | in `Rev1`, `d=_,H=_,M=mm` never fires |
| Schedule.DaySuppliedShape | aws-tag-sched-ops.py:155 | a token that supplies the day starts with `d` or `u`; a three-letter `d` token is a wildcard, and `_` only in `Rev2` |
| Schedule.NoMinuteNeverFires | aws_tag_sched_ops_perform.py:114 | every periodic value with no minute part never fires, whatever day and hour parts it has |
| Schedule.NoMinuteExample | aws_tag_sched_ops_perform.py:114 | `d=* H=*` names every day and hour but never fires |
| Schedule.MalformedNeverFires | aws_tag_sched_ops_perform.py:110-115 | the malformed value `Monday` fires neither schedule |
| Schedule.ElevenThirtyFires | aws_tag_sched_ops_perform.py:843-847 | `d=*,H:M=11:30` fires on every run from 11:30 to 11:39 |
| Schedule.ElevenThirtyNotBefore | aws_tag_sched_ops_perform.py:843-847 | `d=*,H:M=11:30` does not fire on a run from 11:20 to 11:29 |
| Text.ParseNatToString | aws-tag-sched-ops.py:191-193 | the decimal rendering of a natural number parses back to it |
| Text.NatToStringInjective | aws-tag-sched-ops.py:191-193 | distinct numbers render to distinct decimals |
| Text.IntToStringRoundTrip | aws-tag-sched-ops.py:191-193 | the rendering of an integer, with a sign when it is negative, parses back to it |
| Text.Pad2Value | aws_tag_sched_ops_perform.py:110-115 | the two-digit `%d`/`%H`/`%M` rendering has two digits and reads back as the number |
| Text.Pad2Injective | aws_tag_sched_ops_perform.py:110-115 | distinct numbers below 100 render to distinct two-digit strings |
| Text.JoinSplit | aws_tag_sched_ops_perform.py:137 | joining the pieces of a split on a separator gives back the string |
| Text.SplitJoin | aws_tag_sched_ops_perform.py:139-142 | splitting a join of separator-free pieces gives back the pieces |
| Text.TokenInSplitIff | aws_tag_sched_ops_perform.py:137 | a delimited token occurs in a value exactly when it is one of the pieces of the split on the delimiters |
| Text.RemoveCharsFree | aws_tag_sched_ops_perform.py:692-695 | removing the unsafe date characters leaves none of them; read left to right, every other character is appended in order and every removed one skipped |
| Operations.TagKeyJoin | aws_tag_sched_ops_perform.py:152-156 | tag keys are `managed` followed by the arguments, each after a `-` |
| Operations.EnableKey | aws_tag_sched_ops_perform.py:639-641 | the enabling tag key of an operation is `managed-<op>` |
| Operations.SchedKey | aws_tag_sched_ops_perform.py:643-647 | the schedule tag key is `managed-<op>-<freq>` |
| Operations.BuildParamsTags | aws_tag_sched_ops_perform.py:633-649 | the loops build the params_tags tables of the given operations, frequencies and combination table |
| Operations.ParamsTagsRegexpKeys | aws-tag-sched-ops.py:698-714 | the regexp table has exactly the enabling and schedule keys of the operations |
| Operations.ParamsTagsEnableRegexps | aws_tag_sched_ops_perform.py:639-641 | an enabling key carries no regexps, so any value enables |
| Operations.ParamsTagsSchedRegexps | aws_tag_sched_ops_perform.py:643-645 | a schedule key carries the regexps of its frequency |
| Operations.ParamsTagsPairKeys | aws_tag_sched_ops_perform.py:643-647 | the tag-set table has exactly one entry per operation and frequency |
| Operations.ParamsTagsPairOp | aws_tag_sched_ops_perform.py:644-647 | the pair {enable key, schedule key} maps to its operation |
| Operations.ParamsTagsOpSetAt | aws_tag_sched_ops_perform.py:633-649 | the op-set table maps each singleton to its operation and otherwise holds the type's combinations |
| Operations.CapabsUnambiguous | aws-tag-sched-ops.py:504-527 | for each resource type, the scheduler's operation names are distinct and no enabling key collides with a schedule key |
| Operations.EnableNotSched | aws-tag-sched-ops.py:504-527 | an enabling key is never a schedule key |
| Operations.SchedKeyInjective | aws_tag_sched_ops_perform.py:643-647 | a schedule key determines its operation and frequency |
| Operations.TableWellFormed | aws_tag_sched_ops_perform.py:393-399 | every combination is of at least two operations of the type and resolves to one of them |
| Operations.Resolve | aws_tag_sched_ops_perform.py:610-613 | the lookup succeeds exactly when the set is a key of the table |
| Operations.ResolveIff | aws_tag_sched_ops_perform.py:610-613 | a set resolves to `o` exactly when it is {o} for a supported `o` or a combination mapped to `o` |
| Operations.ResolveNoneIff | aws_tag_sched_ops_perform.py:610-613 | a set resolves to nothing exactly when it is neither a combination nor a supported singleton |
| Operations.ResolveEmpty | aws_tag_sched_ops_perform.py:607-613 | a resource with no due operation resolves to nothing |
| Operations.InstanceCombinations | aws_tag_sched_ops_perform.py:393-399 | for EC2 instances, reboot with image gives reboot-image, reboot with stop gives stop, and start with stop, or image with stop, conflict |
| Operations.DBInstanceCombinations | aws_tag_sched_ops_perform.py:475-481 | for RDS instances, snapshot with stop gives snapshot-stop, reboot with stop gives stop, and failover reboot with plain reboot, or start with stop, conflict |
| Operations.VolumeCombinations | aws_tag_sched_ops_perform.py:409-416 | an EBS volume resolves only {snapshot} |
| Operations.TentativeOverAdd | aws_tag_sched_ops_perform.py:607-609 | one more tag set adds its operation exactly when all its keys matched |
| Operations.SearchAll | aws_tag_sched_ops_perform.py:601-605 | the loop over the regexps succeeds exactly when every one finds the value |
| Operations.CollectTentative | aws_tag_sched_ops_perform.py:607-609 | the tentative operations are those whose required tag set matched in full |
| Operations.RsrcProcess1 | aws_tag_sched_ops_perform.py:569-615 | the tentative operations, the `Name` tag, the child tags as a list, and the operation the set resolves to |
| Operations.RsrcProcess2 | aws-tag-sched-ops.py:626-677 | as in the first revision, with the child tags as a dict |
| Operations.MatchedKeysIff | aws_tag_sched_ops_perform.py:583-605 | a key matches exactly when it is a managed key other than `Name` and some tag with it has a value that all its regexps find |
| Operations.EnableMatchedIff | aws_tag_sched_ops_perform.py:598-605 | an enabling key matches exactly when some tag has it, whatever its value |
| Operations.SchedMatchedIff | aws_tag_sched_ops_perform.py:598-605 | a schedule key matches exactly when some tag with it has a value its frequency's regexps find |
| Operations.TentativeIff | aws_tag_sched_ops_perform.py:605-607 | an operation is tentative exactly when its enabling key and one of its schedule keys matched |
| Operations.DueIff | aws_tag_sched_ops_perform.py:569-615 | with a type's tables, an operation is due exactly when the type supports it, the resource has its enabling tag, and one of its schedule tags hits |
| Operations.NoEnablingNeverDue | aws_tag_sched_ops_perform.py:646-647 | without its enabling tag, an operation is never due |
| Operations.HitsAtIff | aws_tag_sched_ops_perform.py:643-645 | a schedule tag hits exactly when it is the once tag with the current time or the periodic tag supplying day, hour and minute |
| Operations.EnableValueIrrelevant | aws_tag_sched_ops_perform.py:598-605 | changing the value of an enabling tag does not change which keys match |
| Operations.NameFromTagLast | aws_tag_sched_ops_perform.py:585-587 | the name is the value of the last `Name` tag |
| Operations.NameFromTagNone | aws_tag_sched_ops_perform.py:576-587 | without a `Name` tag, the name is empty |
| Operations.ChildTagsListIff | aws_tag_sched_ops_perform.py:588-596 | a tag is copied to the child exactly when the parent has it and it passes the filter |
| Operations.ChildTagsListAppend | aws_tag_sched_ops_perform.py:583-596 | the child tags keep the parent's order |
| Operations.PassesIff | aws_tag_sched_ops_perform.py:588-596 | a tag passes exactly when it is not `Name`, not a managed scheduling key, its key is not reserved (`aws:`, `ec2:`, `rds:`, `managed-delete`), and its value is not reserved |
| Operations.ChildTagsMapKeys | aws-tag-sched-ops.py:637-653 | the child tag dict has exactly the keys of passing tags |
| Operations.ChildTagsMapLast | aws-tag-sched-ops.py:637-653 | a key's value in the dict comes from its last passing tag |
| Children.Sanitize | aws_tag_sched_ops_perform.py:519-550 | replacing unsafe characters keeps the length |
| Children.SanitizeAt | aws_tag_sched_ops_perform.py:519-550 | each character is kept when safe for the child type, else replaced by the fill character |
| Children.SanitizeSafe | aws_tag_sched_ops_perform.py:519-550 | the result is safe; a safe name is left as it is, so sanitising is idempotent |
| Children.SanitizeAppend | aws_tag_sched_ops_perform.py:519-550 | sanitising works character by character over a concatenation |
| Children.ChildName | aws_tag_sched_ops_perform.py:519-550 | a child name fits the type's length limit, is safe, and starts with `zm-`; where it is cut is stated by `Children.ChildNamePrefix` and `Children.ChildNameLength` |
| Children.ChildNameParts | aws_tag_sched_ops_perform.py:533-538 | the sanitised join of `zm`, label, date and suffix is `zm-` then the sanitised parts separated by `-` |
| Children.ChildNameWhole | aws_tag_sched_ops_perform.py:519-550 | with safe parts that fit, the child name is `zm-<label>-<date>-<suffix>` in full |
| Children.ChildNamePrefix | aws_tag_sched_ops_perform.py:533-550 | for any lengths, the child name is a prefix of the whole sanitised `zm-<label>-<date>-<suffix>` |
| Children.ChildNameLength | aws_tag_sched_ops_perform.py:533-550 | the child name is as long as the whole name when that fits and exactly `name_len_max` otherwise; with `Children.ChildNamePrefix`, it is the whole sanitised name cut at `name_len_max` |
| Children.ParentLabelChoice | aws_tag_sched_ops_perform.py:535 | the label is the parent's `Name` tag when it is non-empty, its ID otherwise |
| Children.DateSafeShape | aws_tag_sched_ops_perform.py:692-695 | the date for names is `YYYYMMDDTHHMMZ` |
| Children.RdsSnapshotIdCases | aws_tag_sched_ops_perform.py:253-272 | an empty name or ARN gives the empty ID; an ARN with too few parts errs; otherwise the ID is the ARN with its last two parts replaced by `snapshot` and the child name |
| Children.SpecialKeys | aws_tag_sched_ops_perform.py:724-729 | the keys of the special child tags |
| Children.ParentEntry.ExtendSpecialTags | aws_tag_sched_ops_perform.py:724-730 | the special tags are appended to the child tags, and the name is unchanged |
| Children.MergeSpecialOverrides | aws-tag-sched-ops.py:761-767 | when the dicts are merged, a special tag overrides a copied tag with the same key, and nothing is lost |
| Children.SpecialMapValues | aws-tag-sched-ops.py:761-767 | the special tags record the parent's ID, the operation, the tracking date and the child name under `Name` |
| Children.OpKwargsMeaning | aws_tag_sched_ops_perform.py:358-473 | the call's kwargs hold the resource ID under its argument; `NoReboot` only for EC2 images (true for plain image); `ForceFailover` only for RDS reboots (true for failover) |
| Children.TwoStepIff | aws_tag_sched_ops_perform.py:703-711 | the child is tagged in a second call exactly when the operation makes a child and is not an RDS snapshot |
| Children.CallKwargsMeaning | aws_tag_sched_ops_perform.py:714-732 | child tags go in the call exactly for one-step child operations; the child name is filled in under each name argument; other kwargs come from the operation |
| Children.PrepareCall | aws_tag_sched_ops_perform.py:714-732 | before the call, a child operation gets its sanitised name and special tags and its kwargs; any other operation gets its plain kwargs |
| Children.MsgOf | aws-tag-sched-ops.py:727-772 | the queue message carries the resource's name and the operation's method |
| Children.MsgSecondStep | aws-tag-sched-ops.py:737-750 | the message names a tagging method exactly for two-step operations, and a child ID key exactly when the type is not RDS |
| Children.MsgKwargs | aws-tag-sched-ops.py:752-769 | the message kwargs are the operation's, plus the child name and tags for child operations |
| Children.MsgChildTags | aws-tag-sched-ops.py:761-767 | the message's child tags are the copied tags overridden by the special tags |
| Placement.RsrcsGet | aws_tag_sched_ops_perform.py:656-676 | the loop files each resolved resource under its operation and resource ID, and logs the unsupported ones |
| Placement.PlacedIff | aws_tag_sched_ops_perform.py:656-676 | an ID is filed under an operation exactly when its resource resolves to it; its entry is that resource's |
| Placement.AtMostOneOp | aws_tag_sched_ops_perform.py:656-676 | each resource is filed under at most one operation |
| Placement.UnsupportedIff | aws_tag_sched_ops_perform.py:665-676 | a resource is logged unsupported exactly when it has tentative operations that resolve to none |
| Placement.PlacedOps | aws_tag_sched_ops_perform.py:656-676 | resources are filed only under operations their type supports |
| RetentionTags.TagsDictToPairs | age-backups.py:155-162 | one pair per dict item, each key once |
| RetentionTags.TagPairsToDictAt | age-backups.py:145-152 | a key is in the dict exactly when some pair has it, with the value of its last pair |
| RetentionTags.TagsRoundTrip | age-backups.py:145-162 | converting a dict to pairs and back gives the dict |
| RetentionTags.TagsPostFilterIff | age-backups.py:1138-1175 | tags pass exactly when every required key has one of its listed values (any value if none is listed), no forbidden key is present, and each key set has a key present; with no rules all pass |
| RetentionTags.TagOpCheckIff | age-backups.py:984-994 | `ValueError` exactly for an empty ID, `get` with tags, or `add`/`del` without tags; success exactly for the valid combinations |
| RetentionTags.RsrcsTagCallsPass | age-backups.py:1390-1423 | the add and del calls with `TAGS_DICT_DEL` pass the check for any resource with an ID |
| RetentionDates.UnitsSmaller | age-backups.py:558-575 | every smaller unit has a minimum value |
| RetentionDates.UnitsSmallerIff | age-backups.py:558-575 | the smaller units are those after the given one in the order; a week counts as a day; an unknown unit has none |
| RetentionDates.UnitsSmallerYear | age-backups.py:546-575 | below the year come month, day, hour, minute, second and microsecond |
| RetentionDates.UnitsSmallerDay | age-backups.py:558-575 | below a week or a day come hour, minute, second and microsecond |
| RetentionDates.UnitsSmallerMinute | age-backups.py:558-575 | below the minute come second and microsecond; nothing is below the microsecond |
| RetentionDates.DateNorm | age-backups.py:613-648 | each field of the normalised date is the field's normal form |
| RetentionDates.DateNormFields | age-backups.py:603-648 | the largest unit is floored to a multiple, the smaller units are reset to their minimum, the larger kept |
| RetentionDates.DateNormLarger | age-backups.py:613-648 | units larger than the one normalised are kept |
| RetentionDates.DateNormIdempotent | age-backups.py:613-648 | normalising twice is normalising once |
| RetentionDates.AwsNormKwargs | age-backups.py:651-663 | AWS normalisation floors the minute to ten and zeroes seconds and microseconds |
| RetentionDates.CreateDateAwsNormShape | age-backups.py:651-663 | the normalised creation date floors the minute to ten, zeroes the seconds and keeps the rest |
| RetentionDates.DateNormExample | age-backups.py:651-663 | 10:36:05.000090 normalises to 10:30 |
| RetentionIntervals.UnitDatetimeIff | age-backups.py:666-673 | a duration unit has a datetime unit exactly when the table lists it |
| RetentionIntervals.ResolutionDecodeAgrees | age-backups.py:678-711 | the code as written raises exactly when the regexp does not match; otherwise it agrees with the corrected decoder |
| RetentionIntervals.ResolutionDecodeRaises | age-backups.py:690-711 | as written, `P0D` raises `AttributeError`; corrected, it decodes to nothing |
| RetentionIntervals.ResolutionDecodeString | age-backups.py:675-711 | `P[T]0..0nU` with n ≥ 1 decodes to magnitude n and the table's datetime unit, or to nothing when the unit is not in the table |
| RetentionIntervals.ResolutionDecodeCanonical | age-backups.py:675-711 | a decoded resolution has magnitude ≥ 1, a listed unit, and its canonical string decodes to it again |
| RetentionIntervals.ResolutionDecodeOf | age-backups.py:675-711 | the canonical resolution string decodes to its parts |
| RetentionIntervals.ResolutionsOkSpelled | age-backups.py:714-735 | each supported resolution is spelled out from its parts |
| RetentionIntervals.ResolutionsOkDecode | age-backups.py:714-735 | every supported resolution decodes |
| RetentionIntervals.IntervalRepsInfinite | age-backups.py:788-806 | `R/` means infinite repetition |
| RetentionIntervals.IntervalRepsCount | age-backups.py:788-806 | `R0..0n/` with n ≥ 1 gives n repetitions |
| RetentionIntervals.IntervalRepsZero | age-backups.py:788-806 | `R0/` gives no repetition count |
| RetentionIntervals.IntervalRepsAbsent | age-backups.py:788-806 | a value that does not start with `R` has no count |
| RetentionIntervals.GenIntervalReps | age-backups.py:918-932 | the generated interval repeats twice without a count, forever with `R/`, and once more than its count otherwise |
| RetentionIntervals.ZeroSubElements | age-backups.py:809-822 | the zero-element substitution drops exactly the zero elements of ordered elements |
| RetentionIntervals.ZeroRemoveDuration | age-backups.py:809-822 | zero removal keeps `P`, the non-zero date elements, and `T` with the non-zero time elements when there are any |
| RetentionIntervals.ZeroRemoveNone | age-backups.py:809-822 | a duration with no zero element and no leading or trailing `T` is unchanged |
| RetentionIntervals.SearchElement | age-backups.py:825-851 | the resolution search finds the last element of a single-element duration |
| RetentionIntervals.MixedSearch | age-backups.py:825-828 | in `PT1H30M` the search matches `30M` without the `T` |
| RetentionIntervals.IntervalResolutionMixed | age-backups.py:830-851 | the resolution of `PT1H30M` is `P1M` |
| RetentionIntervals.IntervalSplitIff | age-backups.py:854-872 | splitting succeeds with (repeat, duration) exactly when the parts are well-formed and their join is the input |
| RetentionIntervals.ResolutionsOkPartsValid | age-backups.py:714-735 | the supported resolutions are well-formed single elements with listed units; date units have magnitude 1 |
| RetentionIntervals.IntervalRepsPrefix | age-backups.py:788-806 | the repetition of a repeat prefix before a duration is read back |
| RetentionIntervals.CanonicalParts | age-backups.py:854-872 | a duration with no zero element, behind a repeat prefix, survives zero removal and splits back to itself |
| RetentionIntervals.IntervalProcessElement | age-backups.py:875-890 | a single-element interval is accepted, with its resolution, exactly when the resolution is supported |
| RetentionIntervals.IntervalProcessSupported | age-backups.py:875-890 | every supported resolution, with any repeat prefix, is accepted as its own resolution |
| RetentionIntervals.ResolutionStringInjective | age-backups.py:714-735 | different parts make different resolution strings |
| RetentionIntervals.ResolutionSupportedIff | age-backups.py:714-735 | a resolution string is supported exactly when its parts are listed |
| RetentionIntervals.IntervalProcessQuarterHour | age-backups.py:714-735 | `PT15M` is rejected |
| RetentionIntervals.IntervalProcessDayOfHours | age-backups.py:714-735 | `PT24H` is rejected |
| RetentionIntervals.IntervalProcessMixed | age-backups.py:875-890 | `PT1H30M` is accepted, with resolution `P1M` |
| Retention.TakenIff | age-backups.py:1193-1212 | the inner loop records at most all boundaries, at least one when there is one, stops after the first begin boundary earlier than `date_min`, and records no earlier begin before it |
| Retention.MaxEndIff | age-backups.py:1213-1217 | the ceiling is absent exactly when no interval has a boundary, else the greatest first boundary |
| Retention.MarkIntervalAt | age-backups.py:1193-1212 | one interval adds its name to END at its first boundary and to BEGIN at the later recorded ones, creating their dates, and changes nothing else |
| Retention.MarkAllBackups | age-backups.py:1178-1218 | recording intervals leaves every DEL and KEEP unchanged |
| Retention.NoneKeptMarkAll | age-backups.py:1178-1218 | when no date keeps anything, recording intervals keeps that so |
| Retention.StartPeriods | age-backups.py:1290-1293 | the BEGIN loop opens a fresh period for each beginning interval |
| Retention.EndIntervals | age-backups.py:1295-1297 | the END loop closes each ending interval, failing with `KeyError` when it is not open |
| Retention.RecordParent | age-backups.py:1300-1312 | every open period records the parent; the backup is kept if some period had not seen it |
| Retention.KeptParentsDistinct | age-backups.py:1300-1312 | kept backups have distinct parents |
| Retention.KeptCovers | age-backups.py:1300-1312 | every parent unseen by an open period keeps a backup |
| Retention.KeepChoiceStep | age-backups.py:1300-1312 | one more backup keeps the choice valid |
| Retention.RetainFirsts | age-backups.py:1300-1312 | the DEL loop records all parents and keeps the first backup of each parent unseen by some open period |
| Retention.DropKept | age-backups.py:1315-1316 | the kept backups are taken out of DEL |
| Retention.OpenOfNoneUp | age-backups.py:1276-1322 | once a date has raised, so does the sweep of any later set of dates |
| Retention.SweepDate | age-backups.py:1288-1320 | one date succeeds exactly when its step succeeds, and then meets its outcome |
| Retention.SweepRaised | age-backups.py:1295-1297 | where a date raises, it and all later dates are left as they are, and the sweep raises |
| Retention.OutcomePartition | age-backups.py:1300-1320 | after the sweep, KEEP and DEL divide the date's original DEL between them, with their tags |
| Retention.OutcomeCeiling | age-backups.py:1318-1320 | from the ceiling on, everything is kept |
| Retention.OutcomeKept | age-backups.py:1300-1316 | before the ceiling, at most one backup per parent is kept, only for a parent an open period had not seen, and one for each such parent |
| Retention.OutcomeRaised | age-backups.py:1295-1297 | after a raise, dates are left as they were |
| Retention.CallsFor | age-backups.py:1396-1404 | one call per backup whose tags carry the deletion tag exactly when asked, with no duplicate |
| Retention.WantedAt | age-backups.py:1396-1404 | the calls for one date are exactly the ones wanted there |
| Retention.WantedOnce | age-backups.py:1390-1423 | each backup gets at most one call, and, for a backup with an ID, that call passes `rsrc_tag_op`'s check |
| Retention.Ledger.IntervalProcess | age-backups.py:1193-1212 | the inner loop records the interval's boundaries and yields its end, its first boundary |
| Retention.Ledger.IntervalsProcess | age-backups.py:1178-1218 | without `date_min` nothing is recorded; otherwise all intervals are recorded, and the ceiling is the greatest end |
| Retention.Ledger.FileBackup | age-backups.py:1063-1073 | a backup is filed under DEL at its creation date |
| Retention.Ledger.RsrcsProcess | age-backups.py:1276-1322 | every date meets its outcome; the sweep fails with `KeyError` exactly when some date raises |
| Retention.Ledger.RsrcsTag | age-backups.py:1390-1423 | exactly the wanted tagging calls, each once: add the deletion tag to DEL backups without it, remove it from KEEP backups with it |

## Left out

- AWS calls (boto3 describe, create, tag and delete), SQS, logging and printing are left out. The model works on the values those calls take and return.
- The clock is a parameter: `utcnow()` and `timestamp()` are inputs.
- `unique_suffix` is a parameter. So are the aniso8601 interval generators: the boundaries of each interval, latest first, are inputs.
- Time zones and the timezone overwrite of `date_norm` are left out. Dates are plain fields, and ledger dates are integers.
- The strftime rendering of `period_start_strs_get` is left out, as is its use of aniso8601; only the repeat and interval parts of `interval_gen` are modelled.
- `desc_process` is modelled only where it files a backup under DEL at its creation date. Argument parsing, pagination and the describe kwargs are left out.
- Regexps are read with ASCII classes: `\d` is 0-9 and `\w` is ASCII letters, digits and `_`, without Unicode.
- The JSON encoding of queue messages and `queue_message_prepare`'s size check are left out.
- The iteration order of Python dicts and sets is left open. One consequence: `Retention.Ledger.RsrcsTag` and `RetentionTags.TagsDictToPairs` promise the set of their results and no particular order.
- `lambda_handler_do` of the find program and `tags_get_two_step` are left out, since they only forward queued calls to AWS.
- Schedule.SchedRegexpLists: its contract states only the two keys; what each regexp matches is stated by `Schedule.PeriodicMatchIff` and `Schedule.OnceMatchIff`.
- Operations.DueIff: it is stated for any regexp lists of the two frequencies; the schedule case is `Operations.HitsAtIff`.
- Retention.Ledger.RsrcsProcess: takes the ceiling as an integer, not as an optional value, because `lambda_handler` calls `rsrcs_process` only when `intervals_end` is set (age-backups.py:1579-1580).
- RetentionIntervals.SearchElement: the resolution is proved to be the smallest increment only for single-element durations. Multi-element durations get the code's exact outcome, on the example `PT1H30M`.
- At line 140 of `aws_tag_sched_ops_perform.py`, the replacement string `r"\d"` is an invalid escape for `re.sub` from Python 3.7 on, which raises. The model gives it the meaning `Rev2` spells as `r"\\d"`: a one-digit wildcard after the tens digit of the minute.
- Python's `$` also matches just before a final newline. The model reads `$` as the end of the string only. This concerns the schedule regexps (aws_tag_sched_ops_perform.py:137, aws-tag-sched-ops.py:180-183) and the anchored resolution regexps of `age-backups.py`. So a tag value such as `d=*,H=*,M=30` followed by a newline fires at a :30 run in the program but not in the model, whose last token is then `M=30` plus the newline.
- Retention.Ledger.RsrcsTag: returns every wanted tagging call, also for a backup with an empty ID. The program raises `ValueError` in `rsrc_tag_op` for such a backup and stops there, because `rsrcs_tag` does not catch it. Backup IDs come from describe responses, which always give one. `Retention.WantedOnce` states that each call passes `rsrc_tag_op`'s check when the ID is not empty.

## Findings

| source | as written | input that shows it | evidently intended | confidence | as-written member | corrected member |
|---|---|---|---|---|---|---|
| age-backups.py:690-711 | `resolution_decode` (modelled by `ResolutionDecodeAsWritten`) reads the groups of the `RESOLUTION_REGEXP` match without checking that there is a match; its only caller, at line 765, passes supported resolutions | `P0D`: the magnitude needs a non-zero digit, so the match is None and `.group` raises `AttributeError` | None for an invalid resolution, as the docstring promises | not executed | RetentionIntervals.ResolutionDecodeRaises | RetentionIntervals.ResolutionDecode |
