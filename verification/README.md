# Fenix data recovery, message logging and process repair in Dafny

Fenix keeps an MPI application running after process failures. This project models what that promise rests on and
proves it:

- **Strided index sets.** A data subset is a set of strided regions. What a region or a subset *means* is a plain set
  of indices (`Regions.In`, `Regions.Points`); intersection, difference, union, merging, bounding, equality, counting,
  packing and membership are shown to compute exactly the corresponding operation on index sets, including the
  loops that insert and erase in a set they are walking over, the reason why merging stops, and that it leaves nothing
  unstrided to merge: a subset of bounds is the one set of maximal intervals of its indices.
- **Snapshots.** A commit files the staged snapshot under its timestamp, where it keeps its contents over every run for
  as long as the timestamp stays; loading overlays committed snapshots newest first; committing and deleting keep a
  fixed pool per member and keep group and members in step over every run; a cohort agrees on its timestamps.
- **In-memory redundancy.** Rotating XOR parity with uneven blocks, buddy copies, and the partner arithmetic, by which
  the copies of a rank's data lie the chosen separation apart.
- **Message logs.** Two endpoints log by index, roll back, exchange region tables, align them and replay, and behind
  each log stands a program with its own counts, which restarts where it began a region. Over every run of sends,
  receives, regions and failures, from two empty logs, it is shown exactly which failures break the promise that each
  message is delivered once and in order, and when recovery can fail for want of a message.
- **Collectives.** All ranks of a communicator log collectives by index, roll back, align their regions to the rank
  that has got furthest and replay. Over every run it is shown exactly when their logs stay in step with their
  programs, wherever those restart, and when they issue the same collectives afterwards.
- **Process groups.** Spares take over the ranks of the dead over any sequence of failures, and whoever lives keeps the
  rank that it started with.
- **Datatype codec.** A recursive printer and a cursor-based parser that are inverse to each other.

Where the program changes things in place the model does too: classes and arrays, whose methods are tied to
functions on values, about which the main results are lemmas.

## How the pieces fit

`Arith` and `Basics` hold recursive products, quotients and stock definitions. `Regions`, `RegionIntersection`,
`RegionDifference`, `RegionMerging`, `RegionSets`, `RegionTouching`, `Subsets` and `Packing` are the index sets;
`SnapshotLoad`, `SnapshotStore`, `SnapshotHistory`, `TimestampSync` and `DataGroups` the snapshots; `ParityLayout`,
`Parity`, `ParityRuns`, `ParityCohorts`, `Buddy`, `BuddyRuns`, `BuddySubsets` and `Cohorts` the redundancy;
`MessageLog`, `Consistency`, `Rollback` and `RankLogs` one message log, `MessageReplay`, `MessageRecovery` and
`RecoveryExamples` two of them in terms of indices, `MessageDelivery`, `MessageRestarts` and `MessageExamples` with
the programs behind them; `Collectives`, `CollectiveRuns`, `CollectiveRestarts`, `CollectiveExamples` and
`CollectiveLogs` the collectives; `ProcessGroups` and `ProcessRecovery` the spares; `DatatypeCodec` and
`DatatypeStreams` the codec.
`dafny verify dfyconfig.toml` checks everything.

## Where the code does less than it might seem to

Each of these is a theorem with its exact condition, and most have a concrete example beside it.

- **Parity, exact buffers.** For a rank whose segments do not tile its data (a remainder exists and the rank is not
  below the incremented remainder) two segments share one byte. Repair meets it twice and leaves 0 there. A lost rank
  always comes back byte for byte exactly when its segments tile (`Parity.SafeRanks`; three ranks and three bytes in
  `Parity.SmallestLoss`). The repaired cohort is protected again exactly then, or if the bytes in question were zero
  (`ParityRuns.ProtectedAgain`), so a run of losses loses nothing exactly when all its ranks tile
  (`ParityRuns.LossesInvisible`).
- **Parity, longer buffers.** If that rank's buffer was longer than the protected data, as it is when a bounded member
  has protected only part of its elements, the walk was not shifted when parity was computed but is during repair:
  from the shared byte on, the recovered data is off by one byte (`Parity.Recovered`, `Parity.RepairExact`; three ranks
  and four bytes in `Parity.LongerBufferShifts`).
- **Messages across a region's border.** If a sender has begun the next region after sending messages that its
  partner has not received, and the partner has begun that region too without any traffic before, the agreement moves
  the living partner behind those messages. Nobody has rolled back and nothing fails, but they are never delivered
  (`MessageExamples.MovedReceiverMissesMessages`). When a log is moved is `MessageDelivery.LogMoves`.
- **Lost sides across a region's border.** A side that comes back without its log takes its region's start from its
  partner, while its program restarts where it began that region. If the two sides began the region at different points
  of their traffic, the two do not agree. A lost receiver is then counted as having messages that its program never
  gets again (`MessageExamples.LostReceiverMissesMessages`), and a lost sender's next messages are taken for ones that
  its partner already has (`MessageExamples.LostSenderSkipsMessages`).
- **Message logs gone stale.** If after a rollback neither endpoint has a valid region, no consistency step takes
  place. An endpoint that still remembers how far its partner once was then skips that many new messages
  (`MessageExamples.StaleSideDropsMessages`).
- **Nothing else breaks delivery.** Each program has got exactly its partner's messages, once and in order, its log
  counts as it does, and its channel holds what is still to come, exactly as long as no failure leaves a log elsewhere
  than its program or a stale side without a step (`MessageDelivery.ExactlyOnce`). Which failures do is told by the
  counts recorded when regions began: going back within a log never does, a living side is only off when its fresh
  region is moved, and a lost one when its partner's table has the region start elsewhere than recorded
  (`MessageRestarts.BreaksExact`).
- **Missing messages.** Recovery can stop for want of a message although the tables agree, after an agreement has moved
  a region away from an older one (`RecoveryExamples.MovedSenderCannotReplay`); without that it cannot
  (`MessageRecovery.RecoveryExact`).
- **Collectives finished early.** Replay starts at the smallest *next* index, which counts an operation in progress as
  done. If one rank has finished a collective that another is still in, the second retries it alone
  (`CollectiveExamples.FinishedEarly`); ranks line up exactly under the condition of `Collectives.LinesUpExact`.
- **Collectives of an older region.** Going back to the current region sets its next index back to its first one; going
  back to an older region does not, whereas the message log does in both cases. The rank's program then goes through
  the region again while its indices go on behind it, and ranks that agree on every index still issue different
  collectives (`CollectiveExamples.OlderRegionMismatches`, `CollectiveRestarts.GoingBackExact`).
- **Collectives of an older region, begun again.** For the same reason, a program that has gone back to an older region
  in which something was done, and then begins it anew, is stopped for beginning it twice (`Collectives.BeginAgain`).
  After going back to the current region it may do that, and in the message log always (`MessageLog.BeginAgain`).
- **Collectives of a lost or fresh rank.** A rank without a log, or in a region in which nothing was ever done, is put
  where the furthest rank has that region start, or where that rank has got to if it does not know the region. Its
  program restarts where it began the region. If that is somewhere else, the ranks agree on every index and still
  issue different collectives (`CollectiveExamples.LostRankMismatches`). This and going back to an older region are the
  only ways to stray (`CollectiveRestarts.StraysExact`).
- **Overlap test.** `DataRegion::operator&&` with one unstrided operand compares ranges only, so it may answer yes for
  regions that share nothing (`RegionIntersection.OverlapsIsConservative`). The operations built on it stay exact.
- **Equality of subsets.** The code declares two unbounded subsets of different strides unequal without comparing
  them; everywhere else equality is exact (`Subsets.DataSubset.Equals`).

## Model

| member | source | states |
|---|---|---|
| RegionIntersection.OverlapsExact | src/data/subset.cpp:90-115 | a negative overlap answer always means no common index; a positive one between two strided or two unstrided regions always means some, and with one unstrided operand exactly that the ranges share an index |
| RegionIntersection.OverlapsIsConservative | src/data/subset.cpp:90-99 | a concrete pair with an unstrided operand where the answer is yes although no index is shared |
| RegionIntersection.IntersectDenotes | src/data/subset.cpp:124-164 | the pieces of an intersection hold exactly the common indices, through first, last and cut repetitions |
| RegionIntersection.IntersectShape | src/data/subset.cpp:124-164 | those pieces are valid, pairwise disjoint, keep the operand's stride, and at most one is strided |
| RegionDifference.TryMergeDenotes | src/data/subset.cpp:186-200 | a successful merge is valid and denotes the union of its two operands |
| RegionDifference.TryMergeExact | src/data/subset.cpp:186-200 | two regions merge, in either order, exactly when one follows the other: two blocks that touch, or one starting a stride behind the last block of the other and as long; and the first of them has an end |
| RegionDifference.MergeAdjacent | src/data/subset.cpp:202-225 | merging two piece sets along their seam loses and adds no index, keeps the pieces disjoint and of one stride and cuts none up; the two ends of the seam come to lie in one region if they merge at all, and the last two regions do not merge any more |
| RegionDifference.MiddleMinus | src/data/subset.cpp:258-266 | all middle repetitions lose the same indices, so repeating the pieces of the second one is exact |
| RegionDifference.StridedMinus | src/data/subset.cpp:252-268 | first, middle and last repetitions together remove exactly the indices of a strided operand |
| RegionDifference.MiddleDifference | src/data/subset.cpp:233-269 | inside the range of a strided operand the pieces are exactly what is left |
| RegionDifference.ThreeWaySplit | src/data/subset.cpp:227-278 | what lies below, inside and above the operand's range makes up the whole difference |
| RegionDifference.Minus | src/data/subset.cpp:227-278 | region difference is exact: disjoint pieces holding the indices of a that are not in b; a strided a of which b has no index stays, or becomes again, one region, unless it is two blocks around a plain b; and the last two pieces do not merge, unless b is plain without end |
| RegionMerging.FoundJoins | src/data/subset.cpp:467-493 | a joint found by either modulus test pairs repetitions that touch, for exactly the repetitions computed |
| RegionMerging.ReplacementExact | src/data/subset.cpp:481-514 | the joint with what precedes and follows it denotes the same indices as the two regions, in disjoint pieces |
| RegionMerging.ReplacementInherits | src/data/subset.cpp:495-514 | every strided piece keeps a stride of the two regions and stays in their range |
| RegionMerging.FewerStarts | src/data/subset.cpp:495-514 | a merge keeps only old block starts and loses one, which is why merging terminates |
| RegionSets.ReplaceKeeps | src/data/subset.cpp:460-529 | replacing two regions by their joint keeps a subset's indices, disjointness and strides |
| RegionSets.ReplaceLowersStarts | src/data/subset.cpp:460-529 | each merge strictly lowers the set of block starts of the whole subset |
| RegionSets.WaitingShrinks | src/data/subset.cpp:437-451 | a walk that erases an element and inserts its remainder ahead of itself still comes to an end |
| RegionSets.StepRemoves | src/data/subset.cpp:442-450 | one step of such a walk removes indices of the other region and nothing else |
| RegionTouching.JointExact | src/data/subset.cpp:467-493 | the two modulus tests find a joint exactly when the later region begins right after a repetition of the earlier one, or its first block ends right before one |
| RegionTouching.JoinQuiet | src/data/subset.cpp:460-529 | replacing two regions by their joint makes none of the unstrided regions that are done touch another one |
| RegionTouching.CanonicalUnique | src/data/subset.cpp:460-529 | two sets of unstrided regions, none of which touch or overlap, with the same indices are the same set |
| Subsets.DataSubset.Strided | src/data/subset.cpp:367-382 | a strided subset denotes its repeated block, normalisation included |
| Subsets.DataSubset.FromBounds | src/data/subset.cpp:384-395 | a subset of disjoint bounds is valid and is the one set of maximal intervals with their indices, so bounds with the same indices give the same regions |
| Subsets.DataSubset.MergeRegions | src/data/subset.cpp:460-529 | merging leaves the denoted indices and the invariant unchanged, adds no stride, and terminates with no two unstrided regions that touch |
| Subsets.DataSubset.JoinWithLater | src/data/subset.cpp:463-522 | one pass replaces the checked region and a later one that touches it at a repetition, with fewer block starts, or changes nothing, and then no later region touches it |
| Subsets.DataSubset.Union | src/data/subset.cpp:408-458 | union of one-stride subsets denotes the set union and is disjoint and one-strided, also when one operand is taken apart; unless one is empty, no two unstrided regions of it touch |
| Subsets.DataSubset.Additions | src/data/subset.cpp:437-454 | what is added for a region is exactly what was not covered yet |
| Subsets.DataSubset.Difference | src/data/subset.cpp:571-623 | difference denotes the set difference, with no two unstrided regions that touch unless an operand is empty; with one common stride the result has it too |
| Subsets.DataSubset.SubtractAll | src/data/subset.cpp:600-620 | removing region after region while the set is being rewritten leaves exactly the indices in none of them |
| Subsets.DataSubset.Equals | src/data/subset.cpp:625-645 | equality answers yes exactly when the index sets are equal, except for two unbounded subsets of different strides |
| Subsets.DataSubset.Start | src/data/subset.cpp:661-665 | the least index, or the greatest representable one when empty |
| Subsets.DataSubset.End | src/data/subset.cpp:667-676 | the greatest index, or the greatest representable one when empty |
| Subsets.DataSubset.BoundedRegions | src/data/subset.cpp:696-711 | bounding denotes the intersection with an interval and keeps pieces disjoint and strides |
| Subsets.DataSubset.Includes | src/data/subset.cpp:794-797 | membership of one index |
| Subsets.DataSubset.IncludesAll | src/data/subset.cpp:799-817 | yes exactly when no index up to the given one is missing |
| Packing.OrderExact | src/data/subset.cpp:741-751 | the order in which blocks are visited has every index of the subset once and no other |
| Packing.PlainOrder | src/data/subset.cpp:741-751 | without strides that order is increasing |
| Packing.Count | src/data/subset.cpp:713-722 | the count is the number of indices up to the bound and the length of the packing order, and 0 when a bounded region has no end or as many indices as stand for that, which takes a bound of at least the last index but one |
| Packing.Pack | src/data/subset.cpp:729-755 | the packed buffer is exactly as long as the subset inside the source and holds its elements in order |
| Packing.Unpack | src/data/subset.cpp:762-785 | unpacking into a buffer that is not empty writes the elements to exactly those indices and leaves the rest; UnpackFitting has the empty one |
| Packing.UnpackFitting | src/data/subset.cpp:757-786 | an empty destination is made just long enough for the subset, an empty subset changes nothing, any other destination keeps its size |
| Packing.SameLayout | src/data/subset.cpp:772-776 | two buffers that hold equally many elements of a subset hold the same ones and are visited in the same order, also where the bound cuts regions |
| Packing.Transfer | src/data/subset.cpp:729-786 | pack then unpack copies source to destination on exactly the subset, also between buffers of different sizes |
| SnapshotLoad.CopyData | src/data/subset.cpp:788-792 | exactly the subset's elements below a size are copied from the snapshot |
| SnapshotLoad.LayDown | src/data/member.cpp:314-317 | one snapshot's turn extends the overlay by what no newer one protects |
| SnapshotLoad.FoundEnough | src/data/member.cpp:308-321 | stopping as soon as everything below the count is found changes nothing |
| SnapshotLoad.LoadAll | src/data/member.cpp:304-328 | every index below the count reads from the newest snapshot that protects it, all others are untouched, and the partial-restore answer comes exactly when some index is protected by none |
| SnapshotLoad.Verdict | src/data/member.cpp:323-328 | the final check, where a full restore complains exactly about a gap below something protected |
| SnapshotLoad.Load | src/data/member.cpp:290-329 | the same for one chosen snapshot, the newest, or all, with the error for a missing or invalid timestamp; and the data reported as found are the indices of the chosen snapshot, or below the count those that any snapshot protects |
| SnapshotStore.FreshPool | src/data/member.cpp:87-100 | a new pool holds depth + 2 snapshots, or more when the in-memory policy fills it twice |
| SnapshotStore.CommitFiles | src/data/member.cpp:372-396 | what a commit files: the staged snapshot under the new timestamp, every other timestamp that stays keeps its snapshot, only the oldest one goes and only beyond the depth, and the next stage is the last of the pool |
| SnapshotStore.CommitPool | src/data/member.cpp:372-396 | a commit never finds the pool dry, and every snapshot stays in exactly one place |
| SnapshotStore.DeletePool | src/data/member.cpp:398-410 | deleting moves a snapshot to the pool and loses none |
| SnapshotStore.CommitSound | src/data/group.cpp:180-194 | a commit keeps the group within depth + 1 timestamps and uses a new one |
| SnapshotStore.TrimTogether | src/data/member.cpp:382-384 | trimming after adding, on a late member's timestamps, is dropping before adding on the group's |
| SnapshotStore.CommitInStep | src/data/group.cpp:180-194 | after a commit a member holds exactly the group's timestamps since the member was created |
| SnapshotStore.DeleteInStep | src/data/group.cpp:196-213 | so it does after a deletion |
| SnapshotStore.RunKeeps | src/data/group.cpp:95-213 | over every run of creations, removals, commits and deletions: group within its depth, members in step, pools conserved |
| SnapshotHistory.CommitLasts | src/data/member.cpp:372-410 | a snapshot is committed with what was staged in it, and over every run of stores, commits, deletions, creations and removals after that, its timestamp has those contents for as long as the member holds it |
| TimestampSync.SyncedExact | src/data/group.cpp:246-265 | the position-wise maximum is strictly descending, without padding, as long as the longest list, and only has timestamps some rank held |
| TimestampSync.NewestKept | src/data/group.cpp:249-265 | no rank holds anything newer than the first agreed timestamp |
| TimestampSync.CommonKept | src/data/group.cpp:249-265 | a timestamp that every rank holds is agreed on, wherever it stands in the lists |
| TimestampSync.SyncTwice | src/data/group.cpp:246-265 | agreeing a second time changes nothing |
| DataGroups.DataMember.Commit | src/data/member.cpp:372-396 | the new timestamp has the snapshot that was staged, every other one still committed keeps its own, only the oldest goes, and the next stage is the last of the pool; the whole state is the specified commit of the old one |
| DataGroups.DataMember.SnapshotDelete | src/data/member.cpp:398-410 | afterwards the timestamp is not committed, all others keep their snapshots, and a conserved pool stays conserved, with the freed snapshot behind its other ones |
| DataGroups.DataMember.CleanupTimestamps | src/data/member.cpp:648-665 | exactly the snapshots with valid timestamps stay committed, the others return to the pool |
| DataGroups.DataGroup.Commit | src/data/group.cpp:180-194 | all members commit under the next timestamp, the first one or one more than the last, and only the oldest goes, and only when the depth is reached; or nothing but the timestamp changes when some data is not stored |
| DataGroups.DataGroup.SnapshotDelete | src/data/group.cpp:196-213 | one, the newest or all snapshots go from the group and every member; the error cases change nothing |
| DataGroups.DataGroup.SyncTimestamps | src/data/group.cpp:246-273 | the group keeps the agreed timestamps and its members only those |
| ParityLayout.SplitsBytes | src/data/policy_imr.cpp:192-197 | block lengths and remainder add up to the data, and some rank always has the shorter block |
| ParityLayout.LengthsExact | src/data/policy_imr.cpp:192-202 | all parity blocks together are as long as the data and one share of it more, rounded up; they differ by at most one byte, and the longer ones come first |
| ParityLayout.WholeTotal | src/data/policy_imr.cpp:199-204 | a rank's segments together are the data, or one byte more exactly when it does not tile |
| ParityLayout.WalkExact | src/data/policy_imr.cpp:220-233 | the offset walk follows the running total, in buffers of any size at least the data |
| ParityLayout.LayoutBound | src/data/policy_imr.cpp:225-233 | segments stay in the data and cover it, and the overshoot is at most the one byte asserted |
| ParityLayout.TilesExact | src/data/policy_imr.cpp:180-233 | a byte is covered twice exactly when the rank does not tile and it is the one shared byte |
| Parity.XorUpdate | src/data/policy_imr.cpp:235-238 | replacing one contribution changes a reduction by exactly that contribution |
| Parity.XorJoined | src/data/policy_imr.cpp:235-238 | a reduction of one contribution is that contribution, and of two groups of ranks the exclusive or of theirs |
| Parity.ProtectProtects | src/data/policy_imr.cpp:209-248 | protecting leaves all data alone and makes every line of segments and parity cancel |
| Parity.RepairExact | src/data/policy_imr.cpp:336-419 | after repair the survivors are unchanged, the lost parity block is back, and every byte of the lost data is known, for all contents and buffer sizes |
| Parity.SafeRanks | src/data/policy_imr.cpp:336-419 | a lost rank is always restored byte for byte exactly when its segments tile, that is, when the data divide evenly by the number of other ranks or the rank is at most the remainder |
| Parity.SmallestLoss | src/data/policy_imr.cpp:192-204 | three ranks and three bytes where it is not |
| Parity.LongerBufferShifts | src/data/policy_imr.cpp:225-233 | three ranks of which the last had staged four bytes: whatever they were, protecting gives a cohort from which two come back mixed and the fourth in place of the third |
| ParityRuns.ProtectedAgain | src/data/policy_imr.cpp:336-419 | a repaired cohort is protected again exactly when the lost rank tiles, or the byte covered twice was zero and so was the next one if it was there |
| ParityRuns.LossesInvisible | src/data/policy_imr.cpp:336-419 | a run of losses, each repaired before the next, leaves every protected cohort's bytes and parity as they were exactly when all its ranks tile |
| ParityCohorts.ParityCohort.ParityLengths | src/data/policy_imr.cpp:189-202 | the lengths every rank computes are those of the layout |
| ParityCohorts.ParityCohort.DataCount | src/data/policy_imr.cpp:181-187 | the greatest count of any staged or protected subset, unbounded ones left out as the wrapping sum does |
| ParityCohorts.ParityCohort.Iprotect | src/data/policy_imr.cpp:209-248 | the loop over roots leaves a protected cohort and each rank's data as they were, with more behind where they were too short |
| ParityCohorts.ParityCohort.ProtectSubsets | src/data/policy_imr.cpp:180-248 | every element of every staged or protected subset lies in the bytes that are protected, subsets without end counting for nothing |
| ParityCohorts.ParityCohort.Repair | src/data/policy_imr.cpp:378-410 | the loop over roots is the specified repair of the lost rank |
| ParityCohorts.ParityCohort.RestoreSnapshot | src/data/policy_imr.cpp:346-383 | repair happens exactly when one rank misses the snapshot, else nothing changes |
| Buddy.UnpackPacked | src/data/policy_imr.cpp:160-169 | sending and receiving in the same order copies exactly the staged elements |
| BuddySubsets.OrdersJoin | src/data/policy_imr.cpp:173-176 | the packing order of a union of data subsets visits what the two orders visit, each index once, and is the second one when the first subset is empty |
| BuddySubsets.Joined | src/data/policy_imr.cpp:173-176 | the union that a rank really computes has the indices of both and joins their orders in this way |
| BuddySubsets.KindIsUnion | src/data/policy_imr.cpp:173-176 | so the library's subsets, under any union with the indices of both, are a kind of subsets that the buddy runs may have |
| BuddySubsets.ShareExact | src/data/policy_imr.cpp:173-176 | what a rank has protected in the end are exactly the indices it had and those it has stored |
| BuddySubsets.StoredSurvives | src/data/policy_imr.cpp:150-334 | from new snapshots, over every run of stores of data subsets and of single losses, each stored index is in the rank's snapshot and reads as if no rank had been lost |
| BuddySubsets.StoredReads | src/data/policy_imr.cpp:150-334 | so with data subsets, from new snapshots: an index has a last stored value exactly when it was ever stored, and it reads as that value |
| Buddy.ProtectKeeps | src/data/policy_imr.cpp:150-178 | protecting freshly staged data leaves the copy exact on everything protected so far |
| Buddy.RepairRestores | src/data/policy_imr.cpp:297-332 | losing any one of two or three ranks and repairing restores its protected data and its copy, and the cohort stays guarded |
| BuddyRuns.DoKeeps | src/data/policy_imr.cpp:150-334 | every store and every loss with repair keeps each rank's data guarded by its neighbour |
| BuddyRuns.LossesInvisible | src/data/policy_imr.cpp:150-334 | over every run of stores and single losses each protected element reads as if no rank had been lost |
| BuddyRuns.RunValue | src/data/policy_imr.cpp:150-334 | over every run of stores and single losses, each rank's element is the one it stored last |
| BuddyRuns.BuddyCohort.Iprotect | src/data/policy_imr.cpp:150-178 | every rank takes in what its left neighbour has staged and its own data stay; its new state is the specified protection |
| BuddyRuns.BuddyCohort.Search | src/data/policy_imr.cpp:277-281 | how many ranks miss a snapshot, one that has it, and the missing one when it is the only one |
| BuddyRuns.BuddyCohort.Repair | src/data/policy_imr.cpp:262-333 | exactly one missing rank is given back by its neighbours, in any other case nothing changes |
| BuddyRuns.BuddyCohort.Rescue | src/data/policy_imr.cpp:294-332 | the messages on first-in first-out channels arrive as the lost rank expects them, also when both come from one neighbour |
| Cohorts.PairingPartitions | src/data/policy_imr.cpp:439-505 | for every size and separation from 1: a rank is in its cohort, members compute the same one, and all are pairs except one of three when the size is odd |
| Cohorts.PartnerExact | src/data/policy_imr.cpp:466-486 | the partner of a normal rank is another normal rank whose partner is the first one |
| Cohorts.PartnerApart | src/data/policy_imr.cpp:466-486 | a normal rank and its partner stand exactly the separation apart among the normal ranks, so that the ranks differ by it, or by one more across the middle rank of an odd size |
| Cohorts.OuterSmall | src/data/policy_imr.cpp:441-465 | the outer groups are smaller than the separation, and with whole pairs of groups between them they make up the communicator |
| Cohorts.PairingSeparated | src/data/policy_imr.cpp:439-505 | so do the members of every pair of normal ranks; those of the outer groups stand at the same place of the two; the three of an odd size are the first, the middle and the last rank |
| Cohorts.StridedPartitions | src/data/policy_imr.cpp:506-516 | in mode 5 cohorts partition the ranks into sets of the asked size when the size is a whole number of sets |
| Cohorts.StridedApart | src/data/policy_imr.cpp:506-516 | with whole sets, another rank is in the cohort exactly when it stands in the same set of groups and at the same place within its group |
| Cohorts.CreateCohort | src/data/policy_imr.cpp:429-520 | the partners inserted are the specified cohort for each mode; those of mode 1 lie the separation apart and those of mode 5 are the ranks at the same place of the groups of one set |
| MessageLog.SendsConsecutive | src/logging/rank_log.cpp:230-237 | the logged indices have no holes |
| MessageLog.SendKeeps | src/logging/rank_log.cpp:230-237 | logging keeps the sends exactly those of the kept regions, and the regions chained |
| MessageLog.BeginKeeps | src/logging/rank_log.cpp:307-339 | so does beginning a region |
| MessageLog.BeginExact | src/logging/rank_log.cpp:307-339 | a region can be begun exactly when it is a later one or nothing has happened in the current one, which then stays as it is |
| MessageLog.BeginAgain | src/logging/rank_log.cpp:319-326 | a program that has gone back to a region can begin it again, and nothing changes |
| MessageLog.SendExact | src/logging/rank_log.cpp:218-237 | a message can be logged exactly when the log stands in the active region or in none, and then it is under the next index and all else is as before |
| MessageLog.RecvExact | src/logging/rank_log.cpp:279-305 | so can a receive, which moves only the receive index |
| MessageLog.EraseKeeps | src/logging/rank_log.cpp:350-361 | so does dropping later regions |
| MessageLog.OthersKept | src/logging/rank_log.cpp:350-353 | erasing the sends of one region leaves exactly those of the others |
| MessageLog.ResetKeeps | src/logging/rank_log.cpp:39-77 | so does rolling back to any region |
| MessageLog.ResetExact | src/logging/rank_log.cpp:39-77 | rolling back fails exactly for a region missing between two that are there; it leaves the region empty where it started, drops the later ones and keeps the earlier ones, and every message still logged is the one that was |
| Rollback.RollbackUndoes | src/logging/rank_log.cpp:39-72 | after any sends, receives and later regions, rolling back gives the log of when the region began, less evicted regions |
| Consistency.EndpointsAgree | src/logging/rank_log.cpp:83-191 | two endpoints that swap local and remote compute the same pair of tables, or both stop |
| Consistency.AgreeExact | src/logging/rank_log.cpp:83-155 | the step succeeds exactly when the current region of the side that is behind is known to the other side, and starts at the same indices in both or is without traffic on one side; or when a side without regions can be told where its region starts |
| Consistency.AgreementAligns | src/logging/rank_log.cpp:83-155 | in every non-fatal outcome some region is matched: each side starts sending where the other starts receiving |
| Consistency.PairSynchronised | src/logging/rank_log.cpp:157-216 | after the step each side knows exactly where the other goes on receiving, and can replay from there |
| Consistency.NothingMissing | src/logging/rank_log.cpp:157-216 | with an exact log before the step, the step succeeds exactly when the tables agree: nothing to replay is missing |
| Consistency.ResetKeepsExact | src/logging/rank_log.cpp:39-77 | rolling back keeps a log exact |
| Consistency.TrafficKeepsExact | src/logging/rank_log.cpp:230-305 | traffic keeps it exact |
| Consistency.BeginKeepsExact | src/logging/rank_log.cpp:307-339 | beginning a region keeps it exact |
| Consistency.AgreeKeepsExact | src/logging/rank_log.cpp:83-155 | agreement keeps it exact, exactly unless it moves a region without traffic away from an older one |
| MessageReplay.StepKeeps | src/logging/rank_log.cpp:157-305 | after every step each channel holds exactly the indices from the receiver's next one to what its sender has sent or will skip |
| MessageReplay.RejoinEstablishes | src/logging/rank_log.cpp:39-191 | whatever two sides come back with, the invariant on channels holds again exactly unless a stale side goes on without a consistency step |
| MessageReplay.RunKeeps | src/logging/rank_log.cpp:39-305 | over every run from two empty logs, that invariant holds in every state exactly when no failure leaves a stale side |
| MessageDelivery.LogMoves | src/logging/rank_log.cpp:83-155 | the indices of a side change in the step exactly when it has no log, or stands in a region without any traffic, and a partner that is no older knows that region to start elsewhere |
| MessageDelivery.RejoinResumes | src/logging/rank_log.cpp:83-191 | where each side goes on sending and receiving, from what both come back with |
| MessageDelivery.TrafficKeeps | src/logging/rank_log.cpp:230-339 | without a failure nothing is lost, repeated or reordered between the programs |
| MessageDelivery.FailureExact | src/logging/rank_log.cpp:39-216 | after a failure both programs have got their partner's messages up to where their logs stand and the channels carry on from there, exactly under a condition on what both sides come back with, programs restarting where they began a region |
| MessageDelivery.ExactlyOnce | src/logging/rank_log.cpp:39-305 | over every run from two empty logs, whatever sides live on, roll back, reload or are lost: in every state each program has got its partner's messages from 0 on once and in order, its log counts as it does, and its channel carries on from there, exactly when no failure leaves a log elsewhere than its program or a stale side without a step |
| MessageRestarts.BreaksExact | src/logging/rank_log.cpp:83-191 | which failures do that: a fresh region of a living side that the partner moves, a side without a log whose region starts elsewhere in the partner's table than recorded when it began, or a stale side |
| MessageRestarts.SettledAt | src/logging/rank_log.cpp:39-339 | over runs in which none has, every region of a log starts where its program had recorded it |
| MessageRecovery.FailureWhole | src/logging/rank_log.cpp:39-216 | with exact logs a failure is fatal exactly when a side cannot go back or the tables do not agree, and then the logs are exact again exactly unless a region was moved away from an older one |
| MessageRecovery.RecoveryExact | src/logging/rank_log.cpp:39-305 | after every run in which no agreement did that, a failure is survived exactly when both sides can go back and their tables agree |
| MessageRecovery.RunStaysWhole | src/logging/rank_log.cpp:39-305 | over every run the logs stay exact exactly as long as no agreement does that |
| MessageExamples.MovedReceiverMissesMessages | src/logging/rank_log.cpp:105-109 | a run from the start, without rollback or stale side, in which a living receiver is moved and two messages are never delivered |
| MessageExamples.LostReceiverMissesMessages | src/logging/rank_log.cpp:121-155 | a run from the start in which a lost receiver is told that it has two messages that its restarted program never gets |
| MessageExamples.LostSenderSkipsMessages | src/logging/rank_log.cpp:239-246 | a run from the start after which a lost sender's next two messages are skipped as already sent |
| MessageExamples.StaleSideDropsMessages | src/logging/rank_log.cpp:39-58 | a run from the start after which a side skips a new message because an older partner had it |
| RecoveryExamples.MovedSenderCannotReplay | src/logging/rank_log.cpp:193-209 | a run from the start after which tables agree but a message to replay is missing |
| RankLogs.RankLog.EraseSends | src/logging/rank_log.cpp:350-353 | the sends in the range of a valid region go and no others; of a well-formed log exactly those of the other regions stay |
| RankLogs.RankLog.AppendRegion | src/logging/rank_log.cpp:341-348 | the shift in place drops the oldest region with its sends and appends the new one |
| RankLogs.RankLog.EraseRegions | src/logging/rank_log.cpp:355-361 | the two backward copies leave blanks and then the regions kept |
| RankLogs.RankLog.BeginRegion | src/logging/rank_log.cpp:307-339 | succeeds exactly for a later region or when nothing has happened in the current one, which then stays as it is; a later one starts where the log stands |
| RankLogs.RankLog.Send | src/logging/rank_log.cpp:230-256 | a message is logged always and put on the wire only past what the partner has; it fails exactly in another region than the active one |
| RankLogs.RankLog.Wait | src/logging/rank_log.cpp:279-305 | a completed receive moves the receive index |
| RankLogs.RankLog.ResetConsistency | src/logging/rank_log.cpp:39-77 | each branch of rolling back, which fails exactly for a region missing between two that are there |
| RankLogs.RankLog.FormConsistency | src/logging/rank_log.cpp:157-216 | the step in place is the specified alignment, and what it lists to resend is exactly the messages the partner lacks |
| RankLogs.RankLog.CheckConsistent | src/logging/rank_log.cpp:83-119 | aligning two valid tables in place, in either order |
| RankLogs.RankLog.RecoverInvalid | src/logging/rank_log.cpp:121-155 | giving a table without regions its indices from the partner's |
| Collectives.BeginHeld | include/fenix/logging/comm_log.h:79-88 | an operation gets the next index, which counts it before it is done, and the log stays unbroken |
| Collectives.EndHeld | src/logging/comm_log.cpp:100-136 | a completed operation is logged under its index, and the log stays unbroken |
| Collectives.NewRegionExact | src/logging/comm_log.cpp:227-251 | a region can be begun exactly when it is a later one or nothing has happened in the current one, which then stays as it is |
| Collectives.BeginAgain | src/logging/comm_log.cpp:159-251 | a program that has gone back to a region can begin it again, exactly unless it is an older one in which something was done |
| Collectives.ResetHeld | src/logging/comm_log.cpp:159-176 | so it does when regions are dropped, emptied or appended by going back |
| Collectives.ResetExact | src/logging/comm_log.cpp:159-176 | going back fails exactly for a region missing between two that are there; it empties the current region, and leaves an older one as it was, without the later ones |
| Collectives.AlignHeld | src/logging/comm_log.cpp:272-326 | and when it is lined up with the rank that has got furthest |
| Collectives.AlignExact | src/logging/comm_log.cpp:272-326 | lining up succeeds exactly when the furthest rank's table has the rank's region and it starts there too, or it lies past the table and starts where the furthest rank has got to, in both cases or nothing was done in it; or it lies before the whole table, which begins where the rank stands, in no operation |
| Collectives.AlignAgrees | src/logging/comm_log.cpp:272-326 | after that a rank's region starts where the furthest rank's region of that id starts, or where that rank has got to |
| Collectives.LinesUpExact | src/logging/comm_log.cpp:328-373 | all ranks issue the same index at every position exactly when every log reaches the agreed minimum and no operation in progress is before it, or all are in that one |
| CollectiveRuns.StepExact | src/logging/comm_log.cpp:100-373 | one step keeps every rank's log in step with its program, exactly unless a recovery brings a rank back, or puts it, where its program is not |
| CollectiveRuns.StaysInStep | src/logging/comm_log.cpp:100-373 | over every run of operations, regions and recoveries from empty logs, with programs restarting where they began a region, all logs stay in step exactly as long as no recovery does that |
| CollectiveRuns.RecoveryLinesUp | src/logging/comm_log.cpp:146-373 | after every recovery of every run the logs are unbroken, and all ranks issue the same indices exactly under the condition of LinesUpExact |
| CollectiveRestarts.GoingBackExact | src/logging/comm_log.cpp:159-176 | a rank that stays, goes back or goes on is off exactly when it goes to an older region that is not empty, or nothing was done in its region and the furthest rank has it start elsewhere, or its log does not go back that far and it is put elsewhere than its program began |
| CollectiveRestarts.LostExact | src/logging/comm_log.cpp:291-323 | a lost rank is off exactly when the furthest rank's table, or how far that has got, puts its region elsewhere than its program began it |
| CollectiveRestarts.StraysExact | src/logging/comm_log.cpp:146-326 | after every run in which none has, a recovery strays exactly when it misplaces some rank in one of these ways |
| CollectiveRuns.SameCollectives | src/logging/comm_log.cpp:328-373 | as long as nothing has strayed, ranks that line up issue the same collectives position by position: logged, retried and new ones |
| CollectiveExamples.FinishedEarly | src/logging/comm_log.cpp:328-335 | a run of two ranks, one of which has finished a collective the other is in, after which they do not line up |
| CollectiveExamples.OlderRegionMismatches | src/logging/comm_log.cpp:159-176 | a run of two ranks, one of which goes back to an older region, after which they agree on the index and issue different collectives |
| CollectiveExamples.LostRankMismatches | src/logging/comm_log.cpp:294-300 | a run of two ranks, one of which is lost in a region that the other has not begun, after which they line up by index and issue different collectives |
| CollectiveLogs.CollectiveLog.Start | include/fenix/logging/comm_log.h:79-88 | the operation gets the index after the last one, everything logged stays, and the log stays unbroken; it fails exactly outside the active region |
| CollectiveLogs.CollectiveLog.Finish | src/logging/comm_log.cpp:131-133 | exactly one operation more is logged, under the index it was given |
| CollectiveLogs.CollectiveLog.BeginRegion | src/logging/comm_log.cpp:227-251 | succeeds exactly for a later region or when nothing has happened in the current one, which then stays as it is |
| CollectiveLogs.CollectiveLog.GoBack | src/logging/comm_log.cpp:159-176 | each branch of going back, which fails exactly for a region missing between two that are there |
| CollectiveLogs.CollectiveLog.FormConsistency | src/logging/comm_log.cpp:272-326 | each branch of lining up, which succeeds exactly under the condition of AlignExact |
| CollectiveLogs.CollectiveLog.Replay | src/logging/comm_log.cpp:360-373 | exactly the logged operations from the start on are issued, in order, without meeting a gap |
| ProcessGroups.InitialValid | src/fenix_process_recovery.cpp:103-111 | the initial groups and tables satisfy the invariant |
| ProcessGroups.InitialExact | src/fenix_process_recovery.cpp:103-111 | before any failure the first processes work, each under its own number as its rank, and the others wait in order, without one |
| ProcessGroups.FillExact | src/fenix_process_recovery.cpp:184-197 | after the replacements each position has its new holder, keeps its rank, and only spares have changed rank |
| ProcessGroups.ShrinkExact | src/fenix_process_recovery.cpp:199-209 | erasing from behind removes exactly the holders that could not be replaced, and the tables stay inverse |
| ProcessGroups.RebuildKeeps | src/fenix_process_recovery.cpp:167-212 | user, spare and dead partition the processes, the tables are inverse, users stand in rank order, no spare waits while a rank is vacant |
| ProcessGroups.SurvivorsKeepRanks | src/fenix_process_recovery.cpp:167-212 | a living process that works keeps its rank, and nobody who works is dead |
| ProcessGroups.DeadRanksPassOn | src/fenix_process_recovery.cpp:184-209 | the i-th dead rank goes to the i-th living spare, or stays vacant when spares run out |
| ProcessGroups.SizeExact | src/fenix_process_recovery.cpp:329-352 | the user group has the smaller of initial size and living processes |
| ProcessGroups.RunExact | src/fenix_process_recovery.cpp:323-352 | over every run of failures and retries: invariant, exact dead, exact size, and a short group exactly when deaths exceed the spares |
| ProcessGroups.RunRanks | src/fenix_process_recovery.cpp:323-352 | over every run from the start, a process that worked then and never dies still has its own number as its rank |
| ProcessRecovery.Runtime.constructor | src/fenix_process_recovery.cpp:103-111 | the loop sets up the first processes as ranks of their own numbers and exactly the others as spares, without ranks |
| ProcessRecovery.Runtime.RebuildProcGroups | src/fenix_process_recovery.cpp:167-212 | the loops over the groups and tables are the specified rebuild |
| ProcessRecovery.Runtime.RepairRanks | src/fenix_process_recovery.cpp:323-352 | retrying over shrinking worlds keeps the invariant and warns exactly when deaths exceed the spares |
| DatatypeCodec.IntBack | src/mpixx/datatype.cpp:459-479 | an integer that fits reads back from its bytes |
| DatatypeCodec.IntForth | src/mpixx/datatype.cpp:459-479 | any bytes read as an integer that fits and prints as those bytes |
| DatatypeCodec.BuiltinsExact | src/mpixx/datatype.cpp:26-60 | each of the 35 built-in types is found under its own code, and no other code is in use |
| DatatypeCodec.NamedParsed | src/mpixx/datatype.cpp:605-607 | of the codes below those of the combiners exactly these parse, each as its type |
| DatatypeCodec.ContentLengths | src/mpixx/datatype.cpp:515-577 | how many integers, addresses and inner types each combiner has, as section 4.1.13 of MPI 3.1 lists them |
| DatatypeCodec.ParsePrinted | src/mpixx/datatype.cpp:515-740 | parsing what was printed returns the tree and stops right behind it, whatever follows |
| DatatypeCodec.PrintParsed | src/mpixx/datatype.cpp:590-740 | whatever parses is well formed and was printed that way |
| DatatypeCodec.ParseExact | src/mpixx/datatype.cpp:515-740 | parsing succeeds with a tree and cursor exactly on that tree's bytes |
| DatatypeCodec.PrefixRejected | src/mpixx/datatype.cpp:590-740 | every strict prefix of a printed tree is rejected |
| DatatypeCodec.PrintsApart | src/mpixx/datatype.cpp:515-577 | different trees print differently |
| DatatypeCodec.VectorPrinted | src/mpixx/datatype.cpp:459-489 | a vector type byte by byte: its code, its integers least significant byte first and negative ones in two's complement, and the inner type |
| DatatypeCodec.MessageExact | src/mpixx/datatype.cpp:746-775 | with the magic number: accepted exactly when the data begin with a printed message |
| DatatypeCodec.MessagePrinted | src/mpixx/datatype.cpp:579-588 | a whole message byte by byte |
| DatatypeStreams.Writer.WriteArray | src/mpixx/datatype.cpp:484-489 | the loop appends all integers in order |
| DatatypeStreams.Writer.SerializeRecursive | src/mpixx/datatype.cpp:515-577 | what each combiner writes is the whole printed form |
| DatatypeStreams.Reader.ReadVal | src/mpixx/datatype.cpp:471-479 | a read advances the cursor by its width or fails without enough bytes |
| DatatypeStreams.Reader.ReadVector | src/mpixx/datatype.cpp:507-513 | the loop reads all integers, or fails exactly when bytes are missing |
| DatatypeStreams.Reader.ReadContents | src/mpixx/datatype.cpp:610-733 | what each of the twelve combiners reads, integer by integer and array by array, has the form that printing gave it, or fails exactly when bytes are missing or a length is negative |
| DatatypeStreams.Reader.DeserializeRecursive | src/mpixx/datatype.cpp:590-740 | the cursor-based parser is the specified one, result, cursor and error |

## Left out

- RegionDifference.TryMergeDenotes: indices are exact naturals up to the greatest 64-bit one; the sum in `try_merge` that wraps when a stride times its repetitions passes 2^64 is not modelled as wrapping.
- Subsets.DataSubset.Strided: requires all blocks to lie in the 64-bit index range, and at most one block without end; the code computes the last index with a wrapping sum and checks neither.
- Subsets.DataSubset.FromBounds: requires the bounds to be disjoint, because bounds that share an index make a subtraction in the merge wrap; the code does not check this.
- Subsets.DataSubset.Difference: with operands of different strides the result is exact but may hold two strides, so one stride is only claimed for a common one, and one operand must be bounded; the operands are one-strided, as the union keeps them.
- Packing.Count: the number of indices is an exact natural; a sum of 2^64 over several regions, which wraps to 0, is not modelled.
- Packing.Pack: elements are opaque values; the factor of the element size in bytes is not modelled. The block iterator is the sequence of blocks.
- SnapshotLoad.LoadAll: buffers are copied by plain memory; files, streams and user serialisers are not modelled, and a buffer has at most as many elements as the restore-full constant.
- SnapshotStore.CommitSound: the first timestamp is required not to be negative; with a negative one the value -1 marks "no commit yet" and a later commit at once.
- ParityCohorts.ParityCohort.Iprotect: one protected length for all ranks, who know the same subsets; subset bookkeeping after protection is in the buddy model only.
- Buddy.RepairRestores: snapshots that were recycled with another subset are not covered, since resetting a snapshot does not clear its partner half; all ranks know the same staged subsets, and all have the same element count, as a copy is sized by the holder's own count.
- BuddySubsets.StoredSurvives: a rank's subsets are values, and their union is any function that gives what `DataSubset.Union` promises; they are not objects in the runs.
- ParityRuns.LossesInvisible: ranks are lost one at a time and repaired before the next, for one protected length; protecting anew starts another such run.
- Cohorts.StridedPartitions: nothing is claimed for sizes that are not a whole number of sets; the code leaves those to the user.
- MessageReplay.RunKeeps: speaks of indices only and takes the message sent under an index as fixed; `MessageDelivery` drops that, and there a program's next message is its own next one.
- MessageDelivery.ExactlyOnce: one tag, a deterministic sender whose k-th message is always the same, and channels that are empty after a failure; re-posting an outstanding receive is not modelled. A program that goes back restarts with what it had sent and got when it began the region; one that goes to a region it has not begun stays where it is, as that is the very next one. A saved state was saved with its log and program in step.
- MessageRestarts.BreaksExact: for programs that begin their regions in increasing order, and go back only to regions they have begun or on to later ones; for the others `MessageDelivery.ExactlyOnce` holds, with its condition on where the two sides stand when they are back.
- CollectiveRuns.StaysInStep: the k-th collective of the program is the same on all ranks; ranks come back together, and an operation given up under manual recovery, whose index stays used, is not modelled.
- CollectiveLogs.CollectiveLog.GoBack: drops an operation in progress, as manual recovery does when it gives the operation up (src/logging/comm_log.cpp:121); `reset_consistency` by itself leaves it set, and the assertion at src/logging/comm_log.cpp:101 would stop the next operation.
- CollectiveRestarts.StraysExact: for programs that begin their regions in increasing order and go back only to regions they have begun, or on; `CollectiveRuns.StaysInStep` has no such condition.
- ProcessGroups.RunExact: group operations keep the order of their first operand (section 6.3.2 of MPI 3.1); agreement and shrinking of communicators are the sequence of worlds that attempts see.
- DatatypeCodec.ParseExact: bytes are least significant first; that the MPI library may refuse to build a parsed type is not modelled.
- MPI itself, waiting and finalising spares, error handlers, callbacks and jumps out of recovery.
- Coroutines: each awaited operation is one step.
- Local policy, attributes, queries, C wrappers, serialising subsets and logs.
- Failures in the middle of a commit of several members.
