# A verified model of the GFF feature engine

This project models the core of a genome-annotation library's feature engine, `src/lib/feature/gff.c`. The engine keeps a set of GFF *features*: records with a sequence name, source, type, 1-based inclusive `[start, end]` span, score, strand, frame and a free-text attribute. A set may carry a *grouping*, which partitions its features by the value of an attribute tag (for example `transcript_id`). On top of this the engine provides several kinds of operation:

- sorting and grouping;
- range subsets;
- type and group filters;
- reverse complementation and coordinate offsets;
- overlap removal by score;
- start/stop codon repair;
- the absorption of helper features;
- creation of UTR, intron and signal features;
- merging of adjacent features ("flattening").

The model also covers a few helpers of `src/lib/base/misc.c`:

- integer powers;
- tuple indices and strings;
- the genetic-code table;
- binomial coefficients and the next-combination enumerator;
- an integer base-2 logarithm;
- nucleotide tests.

## Representation

The C set holds a list of references to feature objects. Every group holds further references to the same objects, so a change made through a group is seen through the set's list.

The class `GffSet.FeatureSet` reproduces this sharing:

- `arena` is a `seq<Feature>` holding every feature object the set has ever held;
- `features` is the set's list, as arena indices;
- `grouping` is `None` or `Some(Grouping(tag, groups))`, and each group keeps its name, its members (arena indices) and its maintained span.

`Valid()` says that every index refers into the arena. A freed feature simply stays unreferenced in the arena.

Each engine function that changes a set is a method `Op(gff: FeatureSet, ...)` with `modifies gff`. Its `ensures` ties the new arena, list and grouping to a specification function of the old state. The loops of the C code are value-level methods with loop invariants, proved against those functions. Lemmas about the functions state what the engine promises.

## Modules

| Module | Contents |
|---|---|
| `Util`, `Sorting` | Generic filters and sequence facts; a stable insertion sort standing for the list library's sort. |
| `GffFeature` | The feature record, per-record validation, frame conversion and the feature comparator. |
| `GffSet` | The set class, grouping lookup, ungrouping and clearing. |
| `GffSort` | `gff_sort`. |
| `GffGroup` | `gff_group`, `gff_group_by_feature`, `gff_filter_by_group` and `gff_partition_by_type`. |
| `GffExon` | `gff_exon_group`. |
| `GffSubset` | Range subsets, the type filter, the strand test, reverse complementation and `gff_add_offset`. |
| `GffOverlap` | `gff_remove_overlaps`. |
| `GffFlatten` | `gff_flatten` and `gff_flatten_within_groups`. |
| `GffRepair` | `gff_fix_start_stop`, `gff_absorb_helpers` and `gff_add_gene_id`. |
| `GffCreate` | `gff_create_utrs` and `gff_create_introns`. |
| `GffSignals` | `gff_create_signals`. |
| `Misc` | The `misc.c` helpers. |

## Behaviour kept as the code has it

- **The group comparator.** A group without members compares level with every group, so the comparator is not a consistent order once such a group exists (`GffSort.GroupCompareEmptyQuirk`). The model's grouped sort orders groups by span instead, which agrees with the comparator on groups that have members (see "## Left out").
- **Frame arithmetic.** Codon creation and helper absorption compute frames with C's `%`, which truncates toward zero. The model uses the same operator (`GffFeature.CMod`) and does not assume the operand is non-negative, so it also covers a null frame (-1) entering the sum.
- **Merging sets the end, even when it shrinks.** When flattening merges a feature into the previous one, the previous one's end is set to the merged feature's end. A feature contained in its predecessor therefore shrinks it (`GffFlatten.FlattenShrinkScenario`).
- **Flattening with `keepGroups` can drop features.** A mergeable neighbour from a different group is skipped. It is never pushed onto the new list, so once anything merges, it is missing from the set's list, although its group still holds it (`GffFlatten.FlattenKeepGroupsScenario`).
- **`gff_flatten_within_groups` ignores groups.** Despite its name and its comment, its loop never consults the groups. It merges across groups and drops the grouping after any merge, exactly as `gff_flatten` does (`GffFlatten.FlattenWithinGroups`).
- **`gff_create_signals`.** Its signal loop re-reads the group's size on every turn, so it also visits the signals it has just appended. Those are inert (`GffSignals.SignalInert`): the model's loop stops at the original members and has the same effect.


## Model

| member | source | states |
|---|---|---|
| Sorting.SortByPermutation | src/lib/feature/gff.c:597-598 | The sort standing for `lst_qsort` returns a rearrangement of its input (equal multisets). |
| Sorting.SortBySorted | src/lib/feature/gff.c:597-598 | The sorted list is non-decreasing by the (start, end) key. |
| Sorting.SortByIdempotent | src/lib/feature/gff.c:597-598 | Sorting an already sorted list leaves it unchanged. |
| GffFeature.CMod | src/lib/feature/gff.c:179 | C `%` truncates toward zero: the remainder lies in [0, b) for a non-negative dividend and in (-b, 0] for a negative one. |
| GffFeature.FrameInvolution | src/lib/feature/gff.c:172-182 | The frame conversion applied on reading, and again on printing, maps 0..2 onto 0..2 and undoes itself. |
| GffFeature.ParseRecordAccepts | src/lib/feature/gff.c:138-182 | A record is accepted iff it has at least 5 columns and each column is valid: start and end are integers; the score is "." or a number; the strand is one of `+ - .`; the frame is "." or 0..2. |
| GffFeature.ParseRecordFeature | src/lib/feature/gff.c:133-186 | An accepted record yields a feature with a valid frame and the mandatory columns copied. Missing optional columns default to a null score, strand ".", a null frame and an empty attribute. |
| GffFeature.FrameRoundTrip | src/lib/feature/gff.c:172-182 | Reading a record and printing its frame gives back the written frame, or "." when the column was "." or absent. |
| GffFeature.FeatureCompareOrder | src/lib/feature/gff.c:563-573 | The feature comparator orders by (start, end) lexicographically, is zero exactly on equal keys, and is antisymmetric. |
| GffSet.FeatureSet.constructor | src/lib/feature/gff.c:263-280 | A new set is empty, ungrouped and has empty metadata. |
| GffSet.FeatureSet.WithFeatures | src/lib/feature/gff.c:285-292 | A set made from a template copies its metadata, is ungrouped and lists exactly the given features in order. |
| GffSet.Ungroup | src/lib/feature/gff.c:715-728 | The grouping is dropped; the features, the list and the metadata are unchanged. |
| GffSet.ClearSet | src/lib/feature/gff.c:1419-1428 | The set ends with no features and no grouping, and keeps its metadata. |
| GffSet.FindMemberFirst | src/lib/feature/gff.c:1262-1278 | The lookup finds the first group holding the feature, at its first position there. It fails exactly when no group holds it. |
| GffSet.FindInGroups | src/lib/feature/gff.c:1262-1278 | The nested search loop of `gff_group_idx` returns the first group holding the feature and its position in it. |
| GffSet.GroupIdx | src/lib/feature/gff.c:1262-1278 | An ungrouped set gives (-1, -1). Otherwise the result is the group index and position of the first occurrence. |
| GffSet.GroupName | src/lib/feature/gff.c:1283-1287 | An ungrouped set gives no name. Otherwise the result is the name of the first group holding the feature. |
| GffSort.GroupCompareOrder | src/lib/feature/gff.c:576-586 | Between non-empty groups, the group comparator is the lexicographic order on spans and is antisymmetric. |
| GffSort.GroupCompareEmptyQuirk | src/lib/feature/gff.c:576-586 | An empty group compares level with two groups that are themselves strictly ordered, so "level" is not transitive. |
| GffSort.SortUngrouped | src/lib/feature/gff.c:594-595 | Ungrouped sort gives a permutation of the list that is non-decreasing by (start, end), and sorting it again changes nothing. |
| GffSort.SortGrouped | src/lib/feature/gff.c:596-608 | The groups are ordered by span, each member list is sorted, and every group is an old group up to member order (same name, span and member multiset). |
| GffSort.SortEachGroup | src/lib/feature/gff.c:597-599 | The first loop leaves every group with its members sorted. |
| GffSort.ConcatMembers | src/lib/feature/gff.c:602-607 | The rebuilt feature list is the concatenation of the groups' members in group order. |
| GffSort.SortedGroupsCompare | src/lib/feature/gff.c:576-600 | Between any two sorted groups that both have members, the earlier never compares above the later under `gff_group_comparator`. |
| GffSort.GffSort | src/lib/feature/gff.c:592-609 | Ungrouped: the list is sorted by (start, end). Grouped: the sorted groups replace the old ones, and the list becomes their members in order. The feature objects are unchanged either way. |
| GffGroup.Position | src/lib/feature/gff.c:650 | The first position of a name in a list; it fails exactly when the name is absent. |
| GffGroup.DistinctProps | src/lib/feature/gff.c:650-659 | First-occurrence order keeps exactly the names that occur, each once. |
| GffGroup.GroupsOfNames | src/lib/feature/gff.c:635-667 | Groups appear in the order their keys are first met, so the group names are the distinct keys in first-occurrence order. |
| GffGroup.GroupsOfDistinct | src/lib/feature/gff.c:650-659 | No two groups share a name, and every feature's key names a group. |
| GffGroup.GroupsOfMembers | src/lib/feature/gff.c:660-664 | A group's members are exactly the features with its key, in their original list order. |
| GffGroup.GroupsOfPartition | src/lib/feature/gff.c:635-667 | Every listed feature is in exactly one group. Every member comes from the list and carries its group's key. |
| GffGroup.GroupsOfCover | src/lib/feature/gff.c:635-667 | Every listed feature belongs to some group. |
| GffGroup.GroupsOfMemberKey | src/lib/feature/gff.c:635-667 | A member of a group is a listed feature whose key is the group's name. |
| GffGroup.GroupsOfSpan | src/lib/feature/gff.c:655-663 | No group is empty, and each group's maintained span is exactly the least start and the greatest end of its members. |
| GffGroup.AddMemberSpans | src/lib/feature/gff.c:650-664 | Adding a feature to a group, new or existing, keeps every group's span exact. |
| GffGroup.SpanAdd | src/lib/feature/gff.c:661-662 | Widening an exact span by a new member gives the exact span of the enlarged group. |
| GffGroup.TagValueQuoted | src/lib/feature/gff.c:641-648 | A tag value written as `"v";` reads back as `v`: the trailing semicolon and the quotes are removed. |
| GffGroup.HashFind | src/lib/feature/gff.c:650 | A hashtable kept in step with the groups finds the first group of a name, and finds none when there is none. |
| GffGroup.AddToGroups | src/lib/feature/gff.c:650-664 | One loop turn adds the feature under its name and keeps the hashtable consistent with the groups. |
| GffGroup.ReadTag | src/lib/feature/gff.c:641-648 | Gives the tag value as specified. An attribute no longer than the tag, or one without a match, gives the empty name. |
| GffGroup.TagGroups | src/lib/feature/gff.c:635-667 | The grouping loop of `gff_group` produces the first-encounter grouping by tag value. |
| GffGroup.TagGroupsStep | src/lib/feature/gff.c:635-667 | One pass takes the grouping of the first i features to that of the first i + 1, keeping the hashtable consistent. |
| GffGroup.GroupByTag | src/lib/feature/gff.c:613-673 | Any old grouping is replaced by the grouping by tag value, under that tag. The list and the features are unchanged. |
| GffGroup.GroupsInArenaOf | src/lib/feature/gff.c:635-667 | The groups formed index the arena. |
| GffGroup.AddMemberInArena | src/lib/feature/gff.c:650-664 | Adding an in-range feature keeps the groups in range. |
| GffGroup.TypeGroups | src/lib/feature/gff.c:689-709 | The loop of `gff_group_by_feature` produces the first-encounter grouping by feature type. |
| GffGroup.GroupByFeature | src/lib/feature/gff.c:678-711 | The set is grouped by feature type under the tag "feature"; the list and the features are unchanged. |
| GffGroup.AddMemberLists | src/lib/feature/gff.c:650-664 | A new name makes a new group holding the feature. A known name appends the feature to that group's members and to nothing else. |
| GffGroup.PartitionByType | src/lib/feature/gff.c:1403-1416 | The types are returned in order of first occurrence, with one subset of feature indices for each type. |
| GffGroup.PartitionByTypeProps | src/lib/feature/gff.c:1403-1416 | The types are distinct and in first-occurrence order. Each subset holds exactly the features of its type, in list order. |
| GffGroup.FilterByGroup | src/lib/feature/gff.c:1032-1065 | The list becomes the members of the groups whose names are listed, in group order. The set is then regrouped by the same tag. |
| GffGroup.KeptMembers | src/lib/feature/gff.c:1044-1055 | The filtering loop collects the members of the listed groups, in group order. |
| GffGroup.FilteredMembersInArena | src/lib/feature/gff.c:1044-1058 | The kept features index the arena. |
| GffGroup.FilterByGroupMembership | src/lib/feature/gff.c:1044-1055 | A feature survives iff it is a member of some group whose name is listed. |
| GffGroup.FilteredMemberListed | src/lib/feature/gff.c:1044-1055 | A surviving feature is a member of a listed group. |
| GffGroup.ListedMemberFiltered | src/lib/feature/gff.c:1044-1055 | A member of a listed group survives. |
| GffExon.NatToString | src/lib/feature/gff.c:776-778 | The decimal text of a number is non-empty, has at least two digits from 10 on, and contains no dot. |
| GffExon.NatToStringInjective | src/lib/feature/gff.c:776-778 | Different run numbers give different decimal texts. |
| GffExon.ExonLabelInjective | src/lib/feature/gff.c:775-778 | Equal labels come from the same outer group name and the same run number, so labels identify runs. |
| GffExon.ExonPass | src/lib/feature/gff.c:764-784 | Numbering the members of one group keeps the arena size, and the furthest-reaching member is in the arena. |
| GffExon.ExonPassOnlyAttributes | src/lib/feature/gff.c:770-780 | Numbering one group changes only attributes, and only those of its members. |
| GffExon.ExonPassRuns | src/lib/feature/gff.c:762-768 | The final run number is 0 exactly when the group is empty and never exceeds the number of members. A furthest-reaching member exists exactly when the group is non-empty. |
| GffExon.ExonPassLast | src/lib/feature/gff.c:782-783 | The furthest-reaching member is a member of the group, and no member ends beyond it. |
| GffExon.Furthest | src/lib/feature/gff.c:782-783 | The first member with maximal end, read from the original features: a member, and no member ends beyond it. |
| GffExon.ExonPassTracks | src/lib/feature/gff.c:782-783 | The member the pass keeps as `lastfeat` is the furthest-reaching member of the original features. |
| GffExon.ExonRunBreak | src/lib/feature/gff.c:764-783 | The first member is in run 1. A later member stays in the current run exactly when it starts at most one base past the furthest-reaching earlier member, on the same strand; otherwise it opens the next run. Its new attribute carries that run number. |
| GffExon.ExonPassLastStep | src/lib/feature/gff.c:782-783 | The furthest-reaching member stays correct after one more member. |
| GffExon.GroupsPass | src/lib/feature/gff.c:760-785 | Numbering every group keeps the arena size. |
| GffExon.GroupsPassProps | src/lib/feature/gff.c:760-785 | Across all groups, only attributes change, and only those of group members. |
| GffExon.ExonGroups | src/lib/feature/gff.c:746-758 | The groups numbered are the sorted groups, or one unnamed group of the sorted list when the set is ungrouped. They index the arena. |
| GffExon.NumberRunStep | src/lib/feature/gff.c:765-783 | One inner-loop turn extends the numbering from the first j members to the first j + 1. |
| GffExon.NumberRuns | src/lib/feature/gff.c:764-784 | The inner loop produces the run numbering of one group. |
| GffExon.NumberAllRuns | src/lib/feature/gff.c:760-785 | The outer loop numbers every group in order. |
| GffExon.ExonGroup | src/lib/feature/gff.c:737-794 | The set is sorted and every member labelled with its run. It is then regrouped by the new tag, and the list is left in the sorted order. |
| GffSubset.SubsetRange | src/lib/feature/gff.c:395-418 | The new set copies the metadata, is ungrouped, and holds copies of exactly the features within [startcol, endcol], in order, renumbered when asked. |
| GffSubset.SubsetRangeStep | src/lib/feature/gff.c:406-416 | One loop turn extends the subset from the first i features to the first i + 1. |
| GffSubset.SubsetRangeBounds | src/lib/feature/gff.c:410-413 | Renumbered subset features lie in [1, endcol - startcol + 1], and each keeps its length. |
| GffSubset.SubsetRangeOverlap | src/lib/feature/gff.c:423-443 | The result is null iff no feature intersects the range. Otherwise it holds copies of exactly the intersecting features, in order. |
| GffSubset.SubsetRangeOverlapSorted | src/lib/feature/gff.c:451-474 | Scans from the cursor and stops at the first feature beginning after endcol. The result is null iff the scan keeps nothing; the cursor moves to the first match, or stays put. |
| GffSubset.ScanSorted | src/lib/feature/gff.c:457-472 | On a list sorted by start, the early stop loses nothing: the scan keeps exactly the intersecting features from the cursor on. |
| GffSubset.FirstHitIsFirst | src/lib/feature/gff.c:457-472 | The new cursor is the first intersecting feature at or after the old one. With no such feature, the scan keeps nothing. |
| GffSubset.FilterByType | src/lib/feature/gff.c:478-509 | The list keeps exactly the features passing the type test, in order. The grouping is dropped iff something was removed. |
| GffSubset.TypeFilterLoop | src/lib/feature/gff.c:492-504 | The loop returns the surviving features, and reports a change iff some feature failed the test. |
| GffSubset.TypeFilterStep | src/lib/feature/gff.c:492-504 | One loop turn keeps the survivors and the change flag correct for one more feature. |
| GffSubset.ReverseStrandOnly | src/lib/feature/gff.c:514-526 | True iff no feature is on "+" and at least one is on "-". |
| GffSubset.RevComplFeatureProps | src/lib/feature/gff.c:545-552 | Mirroring keeps the length, and the new start plus the old end is startRange + endRange. It swaps "+" and "-", keeps ".", changes nothing else, and undoes itself. |
| GffSubset.RevComplArena | src/lib/feature/gff.c:545-552 | Mirroring the listed features keeps the arena size. |
| GffSubset.RevComplArenaAt | src/lib/feature/gff.c:545-552 | A feature object listed an odd number of times ends mirrored, and one listed an even number of times ends unchanged. |
| GffSubset.ReverseCompl | src/lib/feature/gff.c:533-560 | Every listed feature is mirrored within the range and the list is reversed. The grouping and metadata are unchanged. |
| GffSubset.ReverseIndices | src/lib/feature/gff.c:554-559 | The in-place swap loop reverses the list. |
| GffSubset.ReverseComplInvolution | src/lib/feature/gff.c:533-560 | Reverse-complementing twice over the same range restores every feature object and the list order. |
| GffSubset.RevComplTwiceAt | src/lib/feature/gff.c:533-560 | A single feature object is restored by two reverse complementations. |
| GffSubset.OffsetFeatureProps | src/lib/feature/gff.c:1443-1451 | A shifted feature is dropped exactly when it ends before 1 or, with a positive maxCoord, starts after maxCoord. A kept feature is clamped into [1, maxCoord] or [1, infinity), and only its coordinates change. |
| GffSubset.OffsetSpec | src/lib/feature/gff.c:1441-1452 | Only listed objects are touched, and the new list is drawn from the old one. |
| GffSubset.OffsetSpecValues | src/lib/feature/gff.c:1441-1452 | For a list without repeats, the features left are exactly the shifted survivors, in their original order. |
| GffSubset.OffsetValuesStep | src/lib/feature/gff.c:1441-1452 | The survivor property extends by one feature. |
| GffSubset.OffsetStep | src/lib/feature/gff.c:1442-1451 | One loop turn shifts feature i in place and keeps it, clamped, unless it falls out of range. |
| GffSubset.OffsetLoop | src/lib/feature/gff.c:1441-1452 | The loop produces the specified objects and the list of survivors. |
| GffSubset.AddOffset | src/lib/feature/gff.c:1437-1456 | Features are shifted, out-of-range ones dropped and the rest clamped. The grouping is always dropped. |
| GffOverlap.ScoreSumNone | src/lib/feature/gff.c:824-827 | When no member has a score, nothing is summed and the group is marked as having no score. |
| GffOverlap.GroupScoreNone | src/lib/feature/gff.c:828 | A group with no scored member is judged by the length of its span, end - start + 1. |
| GffOverlap.SumRangeFront | src/lib/feature/gff.c:854-862 | The summed score of a run of kept groups can be taken from either end, as the two scans do. |
| GffOverlap.LastAtMost | src/lib/feature/gff.c:839-841 | The binary search gives -1 or an index into the kept list. |
| GffOverlap.LastAtMostSpec | src/lib/feature/gff.c:839-841 | The search finds the last kept group starting at or before the key; every later one starts after it. |
| GffOverlap.ScanDownSpec | src/lib/feature/gff.c:854-858 | The downward scan stops at the first group ending before the candidate starts, or runs off the front. Every group it passes ends at or after that start. |
| GffOverlap.ScanUpSpec | src/lib/feature/gff.c:859-863 | The upward scan stops at the first group starting after the candidate ends, or runs off the back. Every group it passes starts at or before that end. |
| GffOverlap.Ordered | src/lib/feature/gff.c:831-889 | In the kept list, starts and ends both rise. |
| GffOverlap.InsertBetween | src/lib/feature/gff.c:883-889 | Inserting a proper candidate between neighbours it does not touch keeps the kept list disjoint, proper and bounded by the furthest end. |
| GffOverlap.AppendInv | src/lib/feature/gff.c:831-837 | Appending a group that starts beyond the furthest end keeps the kept list disjoint and ordered, and its end becomes the furthest end. |
| GffOverlap.ReplaceInv | src/lib/feature/gff.c:865-889 | Replacing a run bounded by entries that stay clear of the candidate, or dropping the candidate, keeps the invariant. |
| GffOverlap.SlowStepInv | src/lib/feature/gff.c:838-889 | The search path keeps the invariant once the candidate's place is the binary search's answer. |
| GffOverlap.OverlapStepInv | src/lib/feature/gff.c:831-889 | Every step of the loop keeps the kept list disjoint, proper and bounded by the furthest end, given a proper candidate. |
| GffOverlap.RunBounds | src/lib/feature/gff.c:839-863 | Where the binary search and the two scans stop, the entries between the scans are exactly those the candidate overlaps. |
| GffOverlap.OverlapRun | src/lib/feature/gff.c:839-863 | The scans of the search path delimit exactly the kept groups the candidate overlaps. |
| GffOverlap.OverlapStepKeepsDisjoint | src/lib/feature/gff.c:831-889 | A candidate overlapping no kept group is inserted and nothing is removed, given that its coordinates lie strictly between the sentinels -1 and INFTY. |
| GffOverlap.OverlapStepReplaces | src/lib/feature/gff.c:848-879 | A candidate overlapping kept groups replaces exactly the run it overlaps when its score is strictly greater than theirs summed, and is dropped otherwise. |
| GffOverlap.Touching | src/lib/feature/gff.c:842-848 | A candidate overlapping some kept group touches a neighbour of its place, so it takes the replacement branch. |
| GffOverlap.OverlapStepFrom | src/lib/feature/gff.c:831-889 | After a step, every kept entry was kept before or is the candidate. |
| GffOverlap.StepFromGroups | src/lib/feature/gff.c:831-889 | A step keeps every kept entry an input group with that group's own span. |
| GffOverlap.ResolveFrom | src/lib/feature/gff.c:816-903 | Every group kept by the pass is an input group, with its own span. |
| GffOverlap.ResolveInv | src/lib/feature/gff.c:816-903 | When every group is a proper interval, the groups kept by the pass are pairwise disjoint and in start order. |
| GffOverlap.ResolveInArena | src/lib/feature/gff.c:905-912 | The kept groups index the arena. |
| GffOverlap.OverlapScenario | src/lib/feature/gff.c:848-879 | Of [1,100] scoring 5 and [50,150] scoring 3, only the first is kept. |
| GffOverlap.ScoreOf | src/lib/feature/gff.c:816-828 | The scoring loop gives the group's score: the sum of the members' scores, or the span length when none has one. |
| GffOverlap.ScanBelow | src/lib/feature/gff.c:854-858 | The downward loop stops one past the last overlapping entry and sums the entries it passed. |
| GffOverlap.ScanAbove | src/lib/feature/gff.c:859-863 | The upward loop stops at the last overlapping entry and adds the scores it passed. |
| GffOverlap.DeleteRun | src/lib/feature/gff.c:866-872 | Deleting repeatedly at minidx removes exactly the entries minidx..maxidx. |
| GffOverlap.DeleteInsert | src/lib/feature/gff.c:866-887 | Deleting the run and then inserting after index minidx - 1 puts the candidate exactly where the run was. |
| GffOverlap.Contest | src/lib/feature/gff.c:848-879 | When the candidate touches a neighbour, the run around it is summed and either replaced by the candidate or left alone. |
| GffOverlap.Place | src/lib/feature/gff.c:830-889 | One turn of the main loop, ending as the step function says. |
| GffOverlap.ResolveGroups | src/lib/feature/gff.c:816-903 | The main loop gives the kept list of the pass. |
| GffOverlap.RemoveOverlaps | src/lib/feature/gff.c:798-918 | The grouping keeps only the groups the pass keeps, in start order. The feature list becomes their members in that order. The set must be grouped. |
| GffFlatten.Fold | src/lib/feature/gff.c:1303-1336 | The walk keeps the number of feature objects, and its last kept feature is one of them. |
| GffFlatten.FoldShape | src/lib/feature/gff.c:1303-1336 | The kept list is non-empty, ends with the last kept feature, and is no longer than the part walked. It is strictly shorter once anything merged. |
| GffFlatten.StepShape | src/lib/feature/gff.c:1307-1336 | One turn grows the kept list by at most one, and by exactly one unless something merged. |
| GffFlatten.FoldFresh | src/lib/feature/gff.c:1303-1336 | With no feature listed twice, neither the kept features nor the last one occur in the part still to be walked. |
| GffFlatten.FoldUntouched | src/lib/feature/gff.c:1307-1336 | Features still to be walked are untouched. |
| GffFlatten.MergeKeeps | src/lib/feature/gff.c:1325-1327 | A merge changes only the end and the score. In particular the end is copied from the merged feature. |
| GffFlatten.FoldChain | src/lib/feature/gff.c:1307-1336 | With no feature listed twice, no consecutive pair of the kept list passes the merge test. |
| GffFlatten.StepChain | src/lib/feature/gff.c:1307-1336 | One turn keeps the kept list free of mergeable neighbours. |
| GffFlatten.ChainPush | src/lib/feature/gff.c:1332-1335 | Appending a feature that does not merge with the last kept one keeps the kept list free of mergeable neighbours. |
| GffFlatten.ChainMerge | src/lib/feature/gff.c:1325-1327 | Growing the last kept feature in place keeps the kept list free of mergeable neighbours. |
| GffFlatten.FoldQuiet | src/lib/feature/gff.c:1307-1336 | Without kept groups, the walk merges exactly when some consecutive input pair passes the merge test. Until then it keeps every feature and touches nothing, and it never touches the groups. |
| GffFlatten.DeleteKeepsOthers | src/lib/feature/gff.c:1323 | Removing one membership, the evident intent of the deletion at this line (see "## Left out"), leaves every other grouped feature in some group. |
| GffFlatten.FoldGrouped | src/lib/feature/gff.c:1314-1324 | When every feature starts grouped and none is listed twice, the last kept feature and every feature still to be walked stay in some group, so the lookups of gff_group_idx never fail. |
| GffFlatten.StepGrouped | src/lib/feature/gff.c:1314-1324 | One turn keeps the last kept feature and the features still to be walked in some group. |
| GffFlatten.FoldGroupsInArena | src/lib/feature/gff.c:1323 | With the membership removal modelled as deletion from the group's member list (see "## Left out"), the groups keep indexing the feature objects. |
| GffFlatten.FlattenCount | src/lib/feature/gff.c:1296-1345 | The feature count never grows, and the new list indexes the feature objects. |
| GffFlatten.FlattenChangesIff | src/lib/feature/gff.c:1337-1344 | Without kept groups, a set with no mergeable consecutive pair is left exactly as it was. Otherwise the grouping is dropped and the list gets strictly shorter. |
| GffFlatten.FlattenLeavesNoPair | src/lib/feature/gff.c:1296-1345 | Without kept groups and with no feature listed twice, no consecutive pair of the result passes the merge test. |
| GffFlatten.FlattenIdempotent | src/lib/feature/gff.c:1296-1345 | Without kept groups and with no feature listed twice, flattening a second time changes nothing. |
| GffFlatten.FlattenMergeScenario | src/lib/feature/gff.c:1309-1330 | Overlapping scored exons [1,10] and [5,15] merge into [1,15] with the scores added. |
| GffFlatten.FlattenShrinkScenario | src/lib/feature/gff.c:1325 | A feature contained in the last one still sets its end, so [1,100] followed by [10,20] becomes [1,20]. |
| GffFlatten.FlattenKeepGroupsScenario | src/lib/feature/gff.c:1314-1342 | With kept groups, a mergeable neighbour from another group is skipped, so it vanishes from the feature list while its group still holds it. |
| GffFlatten.FlattenStep | src/lib/feature/gff.c:1308-1335 | The loop body for one feature, ending as the step function says. |
| GffFlatten.FlattenWalk | src/lib/feature/gff.c:1303-1336 | The loop over the whole list gives the walk's final state. |
| GffFlatten.FlattenSub | src/lib/feature/gff.c:1296-1345 | A set of at most one feature is left alone. Otherwise the walk's kept list replaces the features when something merged, and the grouping is dropped unless groups are kept. |
| GffFlatten.Flatten | src/lib/feature/gff.c:1353-1355 | Flattening without kept groups. |
| GffFlatten.FlattenWithinGroups | src/lib/feature/gff.c:1362-1397 | The loop never consults the groups, so the result is exactly that of gff_flatten. |
| GffRepair.LastPosSpec | src/lib/feature/gff.c:933-937 | The codon scan settles on a member of the codon type with none of that type after it, or on none when no member has that type. |
| GffRepair.FixCdsProper | src/lib/feature/gff.c:939-961 | Adjusting a proper CDS by a proper start codon keeps it proper; the stop rule never empties a CDS. |
| GffRepair.FixCdsIdempotent | src/lib/feature/gff.c:939-961 | Adjusting an adjusted CDS again by the same proper codons changes nothing: the start codon is then included and the stop codon excluded. |
| GffRepair.FixMembersNone | src/lib/feature/gff.c:939-961 | Without codons the adjusting loop changes nothing. |
| GffRepair.FixMembersProps | src/lib/feature/gff.c:939-961 | Within a group only the spans of CDS members change, and proper features stay proper when the start codon is proper. |
| GffRepair.FixOneSpans | src/lib/feature/gff.c:941-960 | Adjusting one member keeps the change confined to CDS members' spans. |
| GffRepair.FixOneProper | src/lib/feature/gff.c:941-960 | Adjusting one member by a proper start codon keeps every feature proper. |
| GffRepair.FixGroupsProps | src/lib/feature/gff.c:928-962 | Over the groups, only the spans of CDS features that are group members change, and a set of proper features stays proper. |
| GffRepair.FindCodons | src/lib/feature/gff.c:933-937 | The scan of one group finds the last start codon and the last stop codon among its members. |
| GffRepair.FixGroupMembers | src/lib/feature/gff.c:939-961 | The adjusting loop of one group gives the specified features. |
| GffRepair.FixAllGroups | src/lib/feature/gff.c:928-962 | The loop over the groups gives the specified features. |
| GffRepair.FixStartStop | src/lib/feature/gff.c:924-963 | Each CDS is extended over its group's start codon and cut back before the stop codon; the list and the grouping are unchanged. The set must be grouped. |
| GffRepair.BorrowSubtracts | src/lib/feature/gff.c:987-993 | The frame after absorbing len bases, (frame + 2 len) mod 3, is a valid frame, and adding len back gives the old frame. |
| GffRepair.LeftStepGrows | src/lib/feature/gff.c:982-996 | Absorbing an adjacent proper helper on the left keeps a primary feature grown: only its span and frame change, the span widens and stays proper, and the frame stays valid. |
| GffRepair.RightStepGrows | src/lib/feature/gff.c:998-1007 | Absorbing an adjacent proper helper on the right keeps a primary feature grown. |
| GffRepair.ExtendLeftGrows | src/lib/feature/gff.c:982-996 | The leftward loop keeps every feature grown from where the pass started. |
| GffRepair.ExtendRightGrows | src/lib/feature/gff.c:998-1007 | The rightward loop keeps every feature grown from where the pass started. |
| GffRepair.AbsorbMembersGrows | src/lib/feature/gff.c:978-1008 | Visiting the members of a group keeps every feature grown from where it started. |
| GffRepair.GrownTrans | src/lib/feature/gff.c:976-1009 | Growth composes over successive groups. |
| GffRepair.AbsorbGroupsGrow | src/lib/feature/gff.c:969-1011 | From proper features with valid frames, only the span and frame of primary-typed group members change. Spans only widen and stay proper, frames stay valid, and no feature is created or dropped. |
| GffRepair.AbsorbLeft | src/lib/feature/gff.c:982-996 | The leftward loop for one member gives the specified features. |
| GffRepair.AbsorbRight | src/lib/feature/gff.c:998-1007 | The rightward loop for one member gives the specified features. |
| GffRepair.AbsorbAllGroups | src/lib/feature/gff.c:976-1009 | The loop over groups and members gives the specified features. |
| GffRepair.AbsorbHelpers | src/lib/feature/gff.c:969-1011 | Primary features absorb their adjacent helper members; the list and the grouping are unchanged. The set must be grouped. |
| GffRepair.TagMembersEffect | src/lib/feature/gff.c:1022-1027 | Within a group listing each member once, exactly the visited members get the gene_id tag in front of their attribute, once each. |
| GffRepair.TagGroupsEffect | src/lib/feature/gff.c:1015-1029 | With every feature listed once over the groups, a group member carries exactly its group's `gene_id "name" ; ` prefix before its old attribute, and every other feature is unchanged. |
| GffRepair.TagGroupsOnlyAttributes | src/lib/feature/gff.c:1015-1029 | Tagging changes attributes only, and only those of group members. |
| GffRepair.TagMembersOnlyAttributes | src/lib/feature/gff.c:1022-1027 | Tagging one group changes attributes only, and only those of its members. |
| GffRepair.AddGeneId | src/lib/feature/gff.c:1015-1029 | Every member's attribute gets its group's gene_id tag in front; the list and the grouping are unchanged. The set must be grouped. |
| GffCreate.PushAllShape | src/lib/feature/gff.c:1107-1108 | Pushing new objects onto a group appends them to the arena and appends their new indices both to the set's list and to that group. Nothing else changes. |
| GffCreate.PushAllOk | src/lib/feature/gff.c:1107-1108 | Pushing keeps every index of the set in range. |
| GffCreate.RangeSplit | src/lib/feature/gff.c:1107-1108 | Consecutive runs of new indices join up. |
| GffCreate.AppendOneShape | src/lib/feature/gff.c:1076-1120 | One group turn grows the arena and the set's list at the end only, the list by exactly the new objects, and extends that group only. |
| GffCreate.AppendOneValues | src/lib/feature/gff.c:1076-1120 | One group turn leaves existing feature values alone, and appends to the group exactly the objects built from its members' values. |
| GffCreate.AppendGroupsOk | src/lib/feature/gff.c:1076-1120 | The group loop keeps every index in range. |
| GffCreate.AppendGroupsArena | src/lib/feature/gff.c:1076-1120 | Over the group loop, the arena and the set's list only grow at the end, and the list gains exactly the new objects in order. |
| GffCreate.AppendGroupsGroup | src/lib/feature/gff.c:1076-1120 | Over the group loop, every group keeps its name, span and members and only gains members at the end. Groups not yet visited are untouched. |
| GffCreate.AppendGroupsValues | src/lib/feature/gff.c:1076-1120 | The group loop never changes an existing feature object. |
| GffCreate.AppendGroupsMade | src/lib/feature/gff.c:1076-1120 | The objects appended to each visited group are exactly those built from the original values of its original members, even though those values are read later in the loop. |
| GffCreate.CdsBounds | src/lib/feature/gff.c:1083-1095 | The CDS bounds enclose every CDS member, and are INFTY and -1 exactly when there is none. |
| GffCreate.ExonsMembers | src/lib/feature/gff.c:1091-1092 | The exon list holds exactly the exon members. |
| GffCreate.UtrsFromSource | src/lib/feature/gff.c:1099-1118 | Every UTR made is clipped from one of the exons. |
| GffCreate.UtrsFromComplete | src/lib/feature/gff.c:1099-1118 | Every exon reaching before the CDS start or beyond the CDS end yields that UTR. |
| GffCreate.UtrClipped | src/lib/feature/gff.c:1102-1117 | A UTR lies wholly before the CDS start or wholly after the CDS end. |
| GffCreate.UtrsOfSound | src/lib/feature/gff.c:1069-1122 | Every UTR a group gets comes from one of its exon members, before the first CDS base or after the last, typed by the strand of the first member. It comes only when some CDS ends beyond position 0. |
| GffCreate.UtrAvoidsCds | src/lib/feature/gff.c:1098-1119 | No UTR overlaps a CDS member of its group. |
| GffCreate.UtrsOfComplete | src/lib/feature/gff.c:1098-1119 | When some CDS ends beyond position 0, every exon member starting before the first CDS base gets its upstream UTR, and every one ending after the last CDS base gets its downstream UTR. |
| GffCreate.NoCdsNoUtrs | src/lib/feature/gff.c:1098 | A group without a CDS member gets no UTR. |
| GffCreate.UtrScenario | src/lib/feature/gff.c:1098-1119 | On the plus strand, exon [1,200] around CDS [50,150] yields 5'UTR [1,49] and 3'UTR [151,200]. |
| GffCreate.ScanUtrGroup | src/lib/feature/gff.c:1082-1095 | The first scan gives the CDS bounds, the exon members in order and the first member's strand. |
| GffCreate.PushExonUtrs | src/lib/feature/gff.c:1100-1117 | One exon turn pushes its part before the CDS, if any, then its part after it, if any. |
| GffCreate.PushUtrsFrom | src/lib/feature/gff.c:1099-1118 | The exon loop pushes the UTRs of all exons in order. |
| GffCreate.PushUtrs | src/lib/feature/gff.c:1077-1119 | One group gets exactly the UTRs built from its members. |
| GffCreate.UtrsStep | src/lib/feature/gff.c:1076-1120 | One group turn extends the state from the first i groups to the first i + 1. |
| GffCreate.AllUtrs | src/lib/feature/gff.c:1076-1120 | The group loop gives the specified state. |
| GffCreate.CreateUtrs | src/lib/feature/gff.c:1069-1122 | Each group and the set's list gain the UTRs of the group's exons; the tag is kept. The set must be grouped. |
| GffCreate.IntronsFromProps | src/lib/feature/gff.c:1145-1154 | There is one intron fewer than exons, none without exons, and intron j spans exactly the gap between exons j and j + 1. |
| GffCreate.IntronsOfProps | src/lib/feature/gff.c:1135-1154 | The exons used are all the exon members, sorted. The group gets one intron per consecutive pair, each spanning exactly the gap between the pair. |
| GffCreate.IntronAvoids | src/lib/feature/gff.c:1149-1150 | Between sorted, proper, non-overlapping exons, an intron overlaps none of them. |
| GffCreate.IntronsFromAvoid | src/lib/feature/gff.c:1145-1154 | When the ordered exons are proper and do not overlap, no intron overlaps any exon. |
| GffCreate.IntronsAvoidExons | src/lib/feature/gff.c:1135-1154 | When a group's sorted exons are proper and do not overlap, none of its introns overlaps any of its exons. |
| GffCreate.SortPairScenario | src/lib/feature/gff.c:1144 | Exons [21,30] and [1,10], listed in that order, come out of the sort swapped. |
| GffCreate.IntronScenario | src/lib/feature/gff.c:1135-1154 | Exons [21,30] and [1,10], listed out of order, get the one intron [11,20]. |
| GffCreate.ScanExons | src/lib/feature/gff.c:1136-1141 | The scan gives the exon members in order. |
| GffCreate.PushIntronStep | src/lib/feature/gff.c:1146-1153 | One turn pushes the intron between sorted exons j and j + 1. |
| GffCreate.PushIntronsFrom | src/lib/feature/gff.c:1145-1154 | The loop pushes every intron in order. |
| GffCreate.PushIntrons | src/lib/feature/gff.c:1133-1154 | One group gets exactly the introns built from its members. |
| GffCreate.IntronsStep | src/lib/feature/gff.c:1132-1155 | One group turn extends the state from the first i groups to the first i + 1. |
| GffCreate.AllIntrons | src/lib/feature/gff.c:1132-1155 | The group loop gives the specified state. |
| GffCreate.CreateIntrons | src/lib/feature/gff.c:1125-1157 | Each group and the set's list gain the introns between the group's consecutive sorted exons; the tag is kept. The set must be grouped. |
| GffSignals.TransBounds | src/lib/feature/gff.c:1181-1186 | The transcript bounds enclose every CDS and UTR member, and are INFTY and -1 exactly when there is none. |
| GffSignals.CdsWithinTranscript | src/lib/feature/gff.c:1175-1188 | The CDS span lies within the transcript span. |
| GffSignals.ScanContext | src/lib/feature/gff.c:1171-1188 | The first scan gives the CDS span, the transcript span and whether the first member is on the minus strand. |
| GffSignals.CodonsShape | src/lib/feature/gff.c:1194-1223 | Codons are three-base copies of the CDS, at most two of them. The CDS loses at most its first three bases and never grows at its end. |
| GffSignals.MemberSignalsShape | src/lib/feature/gff.c:1191-1254 | Visiting a member trims only a CDS, by three bases at its start or its end. Every object created is a signal copied from the member, a codon of three bases or a splice site of two, and there are at most four. |
| GffSignals.CodonsWhen | src/lib/feature/gff.c:1194-1223 | Exactly the CDS members of at least three bases that begin or end the coding region get codons, and both codons iff they do both. The CDS loses its first three bases iff it begins the region on the minus strand, and its last three iff it ends the region on the plus strand. |
| GffSignals.SignalInert | src/lib/feature/gff.c:1191-1254 | A signal object gets nothing and is left alone, so visiting the signals the loop appends to the group changes nothing. |
| GffSignals.PlusScenario | src/lib/feature/gff.c:1194-1223 | A lone plus-strand CDS [10,100] in frame 0 gets start codon [10,12] and stop codon [98,100] in frame 1, and is cut back to [10,97]. |
| GffSignals.MinusScenario | src/lib/feature/gff.c:1194-1223 | The same CDS on the minus strand gets stop codon [10,12] in frame 1 and start codon [98,100], and is cut to [13,100]. |
| GffSignals.SpliceScenario | src/lib/feature/gff.c:1191-1254 | Of plus-strand CDS exons [10,50] and [100,200], the first gets the start codon and 5' splice site [51,52]. The second gets 3' splice site [98,99] and the stop codon, in frame 2. |
| GffSignals.CodonsOfMember | src/lib/feature/gff.c:1194-1223 | The codon part of the loop body gives the specified member and codons. |
| GffSignals.SignalsOfMember | src/lib/feature/gff.c:1191-1254 | The loop body for one member gives the specified member and new objects. |
| GffSignals.SiteBefore | src/lib/feature/gff.c:1225-1238 | The splice site before a member is added exactly when the test says so. |
| GffSignals.SiteAfter | src/lib/feature/gff.c:1240-1253 | The splice site after a member is added exactly when the test says so. |
| GffSignals.RewriteGrown | src/lib/feature/gff.c:1202-1217 | Rewriting a member in place only trims it. |
| GffSignals.PushSignalsGrown | src/lib/feature/gff.c:1207-1252 | Pushing signal copies adds only signals, appended to the set and to the group. |
| GffSignals.SignalAtGrown | src/lib/feature/gff.c:1191-1254 | One member's turn grows the state and leaves every other group alone. |
| GffSignals.SignalsOverGrown | src/lib/feature/gff.c:1191-1254 | The member loop grows the state and leaves every other group alone. |
| GffSignals.GroupSignalsGrown | src/lib/feature/gff.c:1170-1254 | One group's signals grow the state. |
| GffSignals.GrownTrans | src/lib/feature/gff.c:1169-1255 | Growth composes across groups. |
| GffSignals.SignalsGroupsGrown | src/lib/feature/gff.c:1169-1255 | After any number of groups, existing objects have at most had a CDS span trimmed, and the new objects are signals appended to the set's list. Every group keeps its name, span and members, with new members behind them. |
| GffSignals.GrownOk | src/lib/feature/gff.c:1169-1255 | Growth keeps every index in range. |
| GffSignals.PushEach | src/lib/feature/gff.c:1207-1252 | Pushing a member's new objects in creation order. |
| GffSignals.SignalStep | src/lib/feature/gff.c:1192-1253 | One member processed: its value rewritten in place and its new objects pushed. |
| GffSignals.SignalsOverStep | src/lib/feature/gff.c:1191-1254 | One turn of the member loop extends the state by one member. |
| GffSignals.SignalsForGroup | src/lib/feature/gff.c:1170-1254 | Both loops over one group give the specified state. |
| GffSignals.SignalsStep | src/lib/feature/gff.c:1169-1255 | One group turn extends the state from the first i groups to the first i + 1. |
| GffSignals.AllSignals | src/lib/feature/gff.c:1169-1255 | The group loop gives the specified state. |
| GffSignals.CreateSignals | src/lib/feature/gff.c:1163-1256 | Every group gets its codons and splice sites, which are appended to the set's list; CDS members are trimmed in place and the tag is kept. The set must be grouped. |
| Misc.IntPow | src/lib/base/misc.c:16-20 | The loop gives x to the y-th power, and 1 for a non-positive exponent. |
| Misc.TupleValueCons | src/lib/base/misc.c:133-138 | A tuple's value is its left-most digit times a to the power of the remaining length, plus the rest, so the right-most character is least significant. |
| Misc.TupleIndex | src/lib/base/misc.c:130-140 | The loop gives the tuple's base-a value, right-most character least significant, or -1 at any character outside the alphabet. |
| Misc.TupleValueRange | src/lib/base/misc.c:130-140 | A tuple of digits below a encodes a number in [0, a^\|t\|). |
| Misc.TupleIndexRange | src/lib/base/misc.c:130-140 | tuple_index returns -1 exactly when some character is outside the alphabet. Otherwise the value lies in [0, a^\|t\|). |
| Misc.TupleStrLength | src/lib/base/misc.c:145-153 | get_tuple_str writes exactly tuple_size characters, each from the alphabet. |
| Misc.GetTupleStr | src/lib/base/misc.c:145-153 | The array's first tuple_size slots hold the tuple for the index, right-most character least significant; the rest of the array is untouched. |
| Misc.TupleRoundTrip | src/lib/base/misc.c:130-153 | get_tuple_str inverts tuple_index: decoding an index in [0, a^k) into k characters and encoding them again gives the index back. |
| Misc.TupleStrKnown | src/lib/base/misc.c:150 | Every character get_tuple_str writes is known to tuple_index. |
| Misc.TupleStrValueStep | src/lib/base/misc.c:149-152 | The last character written is the least significant digit and the rest encode the quotient. |
| Misc.CodonTableSize | src/lib/base/misc.c:93-111 | The codon and amino-acid tables both have 64 entries. |
| Misc.AminoAcidsNotNull | src/lib/base/misc.c:103-111 | No amino-acid entry is the null character, so a written slot never reads as null. |
| Misc.CodonShape | src/lib/base/misc.c:93-101 | Table row i is three nucleotides that number i when read as base-4 digits in T, C, A, G order, first base most significant. |
| Misc.CodonsDistinct | src/lib/base/misc.c:93-101 | No two rows of the codon table hold the same codon. |
| Misc.LastIndexFound | src/lib/base/misc.c:115 | After the inverse-alphabet loop, an entry is non-negative iff the character occurs in the alphabet, and then it names a position holding that character. |
| Misc.InvAlph | src/lib/base/misc.c:114-115 | The inverse alphabet has 256 entries. |
| Misc.NucleotideDigit | src/lib/base/misc.c:114-115 | For an alphabet holding A, C, G and T, each nucleotide's inverse entry is a position of the alphabet holding it. |
| Misc.AlphabetDigits | src/lib/base/misc.c:114-115 | Such an alphabet gives the four nucleotides distinct digits below its size. |
| Misc.TripletRange | src/lib/base/misc.c:119 | A triplet's tuple index lies in [0, a^3), and tuple_index does not fail on it. |
| Misc.TripletInjective | src/lib/base/misc.c:119 | Distinct triplets have distinct tuple indices. |
| Misc.CodonIndexRange | src/lib/base/misc.c:119 | Every codon's index is a valid slot of the a^3 table. |
| Misc.CodonIndexInjective | src/lib/base/misc.c:119 | Two codons with the same index are the same codon, so no write overwrites another. |
| Misc.WrittenAt | src/lib/base/misc.c:117-119 | With distinct positions, a slot holds the value written there, or its original content when nothing was written there. |
| Misc.CodonIndicesValid | src/lib/base/misc.c:118-119 | The 64 codon indices are distinct slots of the a^3 table. |
| Misc.CodonTableSlot | src/lib/base/misc.c:117-119 | A table slot holds the amino acid of the codon encoding to it, or null when no codon does. |
| Misc.CodonTableNull | src/lib/base/misc.c:117-119 | A slot is null exactly when no codon encodes to it. |
| Misc.CodonMapping | src/lib/base/misc.c:85-122 | The mapping has a^3 entries for an alphabet of size a. |
| Misc.CodonMappingAt | src/lib/base/misc.c:85-122 | Each codon's slot holds its amino acid. |
| Misc.StopRows | src/lib/base/misc.c:93-111 | The stop symbol sits exactly at the rows of TAA, TAG and TGA. |
| Misc.CodonMappingStops | src/lib/base/misc.c:85-122 | Exactly TAA, TAG and TGA map to the stop symbol. |
| Misc.CodonMappingStart | src/lib/base/misc.c:85-122 | ATG maps to methionine. |
| Misc.CodonMappingNull | src/lib/base/misc.c:117-119 | A slot is left null exactly when no codon encodes to it. |
| Misc.InverseAlphabet | src/lib/base/misc.c:114-115 | The loops build the inverse alphabet: -1 everywhere, and each alphabet character maps to its last position. |
| Misc.GetCodonMapping | src/lib/base/misc.c:85-122 | The array returned is the codon mapping. |
| Misc.ChooseAbove | src/lib/base/misc.c:862-879 | Choosing more than n gives 0. |
| Misc.ChooseSymmetric | src/lib/base/misc.c:864 | n-choose-k equals n-choose-(n-k), which justifies folding k into [0, n/2]. |
| Misc.ChooseAll | src/lib/base/misc.c:862-868 | n-choose-n is 1, the case k = n folds into. |
| Misc.ChooseOne | src/lib/base/misc.c:869-870 | n-choose-1 is n. |
| Misc.ChooseTwo | src/lib/base/misc.c:871-872 | n-choose-2 is n(n-1)/2. |
| Misc.ChooseThree | src/lib/base/misc.c:873-874 | n-choose-3 is n(n-1)(n-2)/6. |
| Misc.CombinationsExact | src/lib/base/misc.c:862-879 | The exact branch is taken exactly when min(k, n-k) <= 3, and then it returns n-choose-k. |
| Misc.AdvancePos | src/lib/base/misc.c:902-905 | The backwards scan stops at or below its starting position, or at -1. |
| Misc.AdvancePosSpec | src/lib/base/misc.c:902-905 | The scan finds the right-most entry that can advance; no entry after it can. |
| Misc.Advanced | src/lib/base/misc.c:911-913 | The advanced entries keep the length. |
| Misc.NextComb | src/lib/base/misc.c:887-916 | The entries end as the specified next combination, with the specified flag; the rest of the array is untouched. |
| Misc.FirstComb | src/lib/base/misc.c:892-895 | The first call sets the entries to 0 .. k-1. |
| Misc.FindAdvance | src/lib/base/misc.c:902-905 | The backwards loop finds the right-most advanceable entry. |
| Misc.SweepFrom | src/lib/base/misc.c:911-913 | The sweep increments entry p and resets each later entry to one more than its predecessor. |
| Misc.CombUpperBound | src/lib/base/misc.c:902-905 | Entry j of a combination is at most n - k + j. |
| Misc.AboveAdvanceMaxed | src/lib/base/misc.c:902-907 | Every entry after the advance position is at its maximum. |
| Misc.NextCombFirst | src/lib/base/misc.c:892-895 | The first call gives the least combination [0 .. k-1]. |
| Misc.NextCombLast | src/lib/base/misc.c:902-907 | On a combination, next_comb fails exactly at the last combination [n-k .. n-1], and then leaves it alone. |
| Misc.AdvancedIsComb | src/lib/base/misc.c:911-913 | Advancing the right-most advanceable entry gives a combination that is lexicographically larger. |
| Misc.AdvancedIsNext | src/lib/base/misc.c:902-913 | No combination lies strictly between a combination and its advanced form. |
| Misc.NextCombSuccessor | src/lib/base/misc.c:887-916 | From a combination that is not the last, next_comb yields the lexicographically next combination. |
| Misc.Log2Int | src/lib/base/misc.c:957-964 | The loop gives floor(log2 x): 2^r <= x < 2^(r+1). |
| Misc.HalvingStep | src/lib/base/misc.c:960-963 | Each halving keeps x between 2^r times the remaining value and 2^r times one more. |
| Misc.TransitionProperties | src/lib/base/misc.c:434-440 | is_transition is symmetric and case-insensitive, and holds exactly for the purine pair {A,G} and the pyrimidine pair {C,T}. |
| Misc.IsIndel | src/lib/base/misc.c:444-446 | True iff either character is a gap. |
| Misc.IndelNotTransition | src/lib/base/misc.c:434-446 | A change that is an indel is never a transition, and the indel test is symmetric. |
| Misc.PowPositive | src/lib/base/misc.c:16-20 | A positive base has positive powers. |

## Left out

- Reading files: only the per-record parse (`GffFeature.ParseRecord`) is modelled. The reading loop of `gff_read_set`, its comment and header-line handling and its regular-expression field splitting are not. Number parsing is a parameter (`parseInt`, `parseReal`).
- Printing: `gff_print_feat`, `gff_print_set` and the discard files are not modelled, apart from the frame conversion used when printing.
- Regular expressions: the tag-matching regex is a parameter, `matchTag`.
- Memory: allocation and freeing are not modelled. A freed feature stays in the arena, unreferenced.
- Sorting: `lst_qsort` is not stable, and the order it gives to ties is unspecified. A stable insertion sort stands in for it, so the model fixes one tie order.
- GffSort.GffSort, GffSort.SortedGroups: grouped sorting orders the groups by their span (start, end), not through `gff_group_comparator` (src/lib/feature/gff.c:576-586). The two agree on groups that have members (`GffSort.SortedGroupsCompare`). That comparator puts a group without members level with every group, which is not a consistent order, so where such a group ends up after `lst_qsort` is not modelled: the model places it by its span fields.
- GffFlatten.DeleteMember, GffFlatten.Step: the membership removal at src/lib/feature/gff.c:1323 passes the group structure itself (`lst_get_ptr(feats->groups, thisGrp)`) to `lst_delete_idx`, where the group's feature list (`group->features`) is meant. As written, it deletes from the group structure read as a list, which the model cannot represent because the structure layouts are not part of this model. The model implements the evident intent: it removes the merged feature from the group's member list.
- The parallel lists of `gff_remove_overlaps` (starts, ends, scores, groups) are one list of `Kept` records.
- `GffOverlap.LastAtMost` stands for `lst_bsearch_int`: the last entry starting at or before the key, not a binary search.
- The null score is stored as `0.0`, together with the flag that marks it null.
- GffOverlap.ScoreSum, GffOverlap.Replace, GffFlatten.Merge: scores are exact reals, where the C code keeps them as `double` (src/lib/feature/gff.c:43). The rounding of the floating-point sums is not modelled. These are the group score (src/lib/feature/gff.c:826), the total of the overlapped run (src/lib/feature/gff.c:857, 862) and the merged score (src/lib/feature/gff.c:1327, 1380). A near-tie overlap contest (src/lib/feature/gff.c:865) can therefore go the other way. For example, a candidate scored 0.1 + 0.2 against a kept group scored 0.3 wins in C, because the `double` sum exceeds 0.3, but it loses in the model, where the sum is exactly 3/10.
- The fixed `sprintf` buffer sizes in `gff_exon_group` and `gff_add_gene_id` are not modelled.
- C `int` overflow is not modelled: integers are unbounded.
- `gff.h` and `misc.h` are not part of this model. `GFF_NULL_FRAME` = -1, `INFTY` = 999999999 and the feature-type names are the values the model assumes for them.
- GffRepair.FixStartStop, GffRepair.AbsorbHelpers, GffRepair.AddGeneId, GffGroup.FilterByGroup, GffOverlap.RemoveOverlaps, GffCreate.CreateUtrs, GffCreate.CreateIntrons, GffSignals.CreateSignals: require a grouped set. The source stops with a fatal error on an ungrouped set, and the model does not model that error path.
- GffSet.GroupIdx, GffSet.GroupName: require the feature to be in some group when the set is grouped. The source stops with a fatal error otherwise.
- GffFlatten.FlattenSub: requires the list to have no repeated index and, with `keepGroups`, every feature to belong to a group. That is the state that grouping leaves behind.
- GffRepair.AbsorbGroupsGrow: stated only for arenas in which every feature has `start <= end` and a valid frame (the predicate `Sound`).
- GffRepair.TagGroupsEffect: stated for groupings in which each feature is listed once (the predicate `ListedOnce`).
- GffSubset.OffsetSpecValues, GffFlatten.FlattenLeavesNoPair, GffFlatten.FlattenIdempotent: stated for feature lists without repeated indices. The same object reached twice would be shifted or merged twice.
- GffCreate.Values: a dangling index reads as a blank feature. No index of a valid set dangles.
- `gff_new_set_init` is not modelled: it reads the clock for the date. `GffSet.FeatureSet.constructor` models `gff_new_set`.
- Misc.GetTupleStr: requires a non-negative index. For a negative one, C's `%` would index before the alphabet.
- Misc.TupleIndex: requires a 256-entry inverse alphabet and characters below 256, as the C code indexes the table by character code.
- Misc.Combinations: the gamma-function branch, for `min(k, n-k) > 3`, is floating point and gives `None`.
- The other functions of `misc.c` are not modelled: random numbers, floating-point statistics and distributions, file and argument handling, and the string utilities.
- `gff_new_feature`'s assertions appear only as the predicate `GffFeature.ValidFeature`.
- GffSignals.CreateSignals: its loop stops at the group's original members. The source also visits the signals it has just appended, which are inert.
