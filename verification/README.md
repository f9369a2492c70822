# Verification model of the clack server

This Dafny project models the stateful core of the chat server and proves what its parts
promise to each other.

- **User list.** The index keeps all users grouped by hoisted role and presence, sorted and
  flattened into one view. A full rebuild and an in-place reposition of one user are two ways to
  the same list; both record which indices of the view changed, and the gateway pushes new slices
  to the clients whose window a change overlaps. `Names`, `Ranks`, `UserLists`, `ListBuilding`,
  `Incremental`, `RoleChanges`, `ViewChanges`, `UserIndex`, `IndexRuns`, `Workers`, `Gateway`.
- **Sparse cache.** Any number of connections stream origin bytes into one sparse file and publish
  byte ranges under a lock, while others serve ranges from the file without it. The ranges are
  those of section 14.1.2 of RFC 9110. `CacheRanges`, `CacheProtocol`, `CacheStore`.
- **Ranks, permissions, rows and pages.** `ChannelPermissions`, `Hierarchy`, `Server`, `RowFolds`,
  `Paging`, over `Database`.

Objects whose methods update fields are classes: `UserIndex.Index`, `CacheStore.CacheMiss`,
`CacheStore.CacheWriter`, `CacheStore.MetadataFile`, `Hierarchy.Transaction`. Each of their methods
is proved to take a step of a state machine on values (`UserIndex.Next`, `CacheProtocol.Next`,
`Hierarchy.Applied`), and the properties of whole runs are lemmas about every run of that machine:
in the cache for every interleaving of its smallest steps, and in `Server` for every order in which
handlers of different connections commit and update the index. What libraries and the engine decide
(the order of ties in a sort, of map iteration, of SQL rows) is known only by contract, so a
theorem holds for every order they may produce.

Conventions: IDs are integers, names are byte sequences, positions and ranks are 64-bit
integers. A permission mask is the set of its bit numbers; `Masks` shows that the mask operations
are the set operations. Users, roles, the two presence groups and the "none" ID are assumed
pairwise distinct. Origin bytes, the chunks the network delivers and the parsed range header are
parameters.

## What the code does not keep

Some promises one would expect are false of the code; the model follows the code, the exact
condition is proved, and `Counterexamples` has concrete inputs. Its runs of the index begin in fresh
states (`Counterexamples.StartsFresh`, `Counterexamples.EmptyIsFresh`, `Counterexamples.CrossingStarts`).

- A user that is updated without being known to the index is stored but not listed, and the list
  is not marked stale (`IndexRuns.UpdateFreshIffKnown`).
- Setting or deleting a role leaves the infos of its holders as they were, and they are wrong as
  soon as a holder notices the change (`IndexRuns.RoleChangeFreshIff`). If the role was somebody's
  hoist and is hoisted no more, the next rebuild drops that user from the view
  (`IndexRuns.UnhoistingDropsUser`, `Incremental.RebuildConservesUsers`).
- A reposition out of a listed group into one that is not listed yet changes the view and records
  nothing (`IndexRuns.NewHoistLeavesViewSilently`, `ViewChanges.RepositionDeclaresChangesIff`), so a
  client can miss a change (`Counterexamples.MissedPush`). On a list whose users are all in listed
  groups this is the only way an update can miss a change (`IndexRuns.UpdateDeclaresIff`), and
  together with taking away a hoist in use the only way such a list can cease to be one
  (`IndexRuns.NextKeepsGrouped`); in runs without either nothing is missed
  (`IndexRuns.NoMissedPush`).
- A view that only grows inside a client's window is not pushed (`IndexRuns.RebuildTouchesIff`).
- Handlers commit and then update the index with no lock across the two. When two of them cross,
  the older update can come last, and the index disagrees with the database until the user is
  updated again (`Server.ServerMirrorsIff`, `Counterexamples.CrossedUpdatesDisagree`).
- An empty published range cuts a miss short (`CacheRanges.AnswerLongest`), a range request that
  starts behind its end can be answered as a hit of non-positive length, and a request without a
  range header is promised the full length whatever is cached (`CacheStore.TryServeCached`).
- An ID used for a role and a user overwrite in one channel loses the one that comes later in the
  joined rows (`RowFolds.FoldIsLossless`, `RowFolds.FirstPerIdIsFirst`).
- A two-sided page around a missing anchor has an empty message in the middle, because the failed
  lookup's error is overwritten; and a page limit of 0 makes paging stop at once
  (`Paging.TwoSidedIsSegmentIff`, `Paging.BackwardWalkComplete`).
- The comment at storage/transactions.go:1043 says pages after the anchor are reversed; the code
  reverses the others, and the model does as the code does.

## Model

| member | source | states |
|---|---|---|
| Ranks.RankIsMinimum | chat/index.go:408-421 | the rank is the least position over the roles held that exist, or the largest integer when there is none |
| Ranks.RankOfSameRoles | chat/index.go:408-421 | the rank does not depend on the order or repetition of the role IDs |
| Ranks.HoistIsFirstMinimum | chat/index.go:422-425 | the hoist is the first held hoisted role of least position, and 0 exactly when no held hoisted role is below the largest position |
| Ranks.HoistIsRoleIff | chat/index.go:422-425 | a held role is the hoist if and only if it is hoisted, below the largest position, and before every other held hoisted role by position, or at the same position by order |
| UserLists.InfoParts | chat/index.go:408-440 | rank, hoist and permissions of a user on the role table itself: the least position of a held role, the first held hoisted role of the least position, the bits of defaults and held roles or all |
| Ranks.RolePermissionsAreUnion | chat/index.go:426-430 | the permissions are the defaults and those of every held existing role, and nothing else |
| Ranks.WidenedPermissions | chat/index.go:426-433 | with bit 0 in the defaults or in a held existing role the permissions are the bits 0 to 30, otherwise the bits of the defaults and of the held existing roles |
| Ranks.RolePermissionsOfSameRoles | chat/index.go:426-430 | the permissions do not depend on the order of the roles |
| Masks.BitsOfOr | common/models.go:52-84 | or-ing masks unites their bits, so sets of bits stand for masks |
| Masks.BitsOfAndNot | common/models.go:52-84 | masking with a complement removes bits |
| Masks.BitsOfConstants | common/models.go:53-84 | the administrator test and the all-permissions constant as sets of bits |
| Names.TextLessTransitive | chat/index.go:210-221 | bytewise comparison of names is transitive |
| Names.TextLessTotal | chat/index.go:210-221 | exactly one of less, equal, greater holds of two names |
| Names.EntryOrder | chat/index.go:210-221 | (name, ID) entries are strictly and totally ordered |
| Names.TextLessIff | chat/index.go:205-221 | a name precedes another if and only if at the first place where they differ it ends or has the smaller byte, so a name comes before its own extensions |
| UserLists.PrecedesIff | chat/index.go:196-221 | one user precedes another in a group if and only if its display name does bytewise, or the names are equal and its ID is smaller; an unknown user counts as nameless |
| Sorting.SortFunc | chat/index.go:181-183 | a library sort: sorted and a permutation, ties in any order |
| ListBuilding.HoistedRoles | chat/index.go:176-180 | collects every hoisted role once, whatever order the map yields |
| ListBuilding.OrderGroups | chat/index.go:173-187 | the group order is the hoisted roles sorted by position, then online, then offline |
| ListBuilding.GroupUsers | chat/index.go:189-198 | every user is put into its own group, once, and no other |
| ListBuilding.SortGroup | chat/index.go:203-224 | a group comes out with the same users, each once, ordered by display name bytewise, a name before its own extensions, and by ID among equal names |
| ListBuilding.SortGroups | chat/index.go:202-225 | every listed group is sorted and no group gains or loses a user |
| ListBuilding.FlattenView | chat/index.go:229-233 | the view is each header followed by its users |
| ListBuilding.BuildList | chat/index.go:170-233 | the computed list is a full rebuild: right group order, each group its users in order, the view their flattening |
| UserLists.GroupOrderHeaders | chat/index.go:174-187 | the headers of a rebuild are exactly the hoisted roles, each once and by position, followed by online and offline |
| UserLists.RebuildGroup | chat/index.go:189-224 | a group of a rebuild has exactly the users whose hoist it is, or who have none and are online or offline accordingly, each once, by display name bytewise and then by ID |
| Incremental.ViewLayout | chat/index.go:226-233 | the view is each header of the order followed by the users of its group, from its first entry to its last |
| UserLists.OrderedUnique | chat/index.go:210-225 | a group is the unique strictly ordered sequence of its users |
| UserLists.RebuildUnique | chat/index.go:170-233 | two rebuilds that break position ties alike show the same groups and the same view |
| UserLists.FlattenSplit | chat/index.go:229-233 | the view splits at every header into what is before, the block, and what is behind |
| UserLists.FlattenElements | chat/index.go:229-233 | the view shows the headers and the users of listed groups, nothing else |
| UserLists.InsertIntoView | chat/index.go:313-343 | inserting into a listed group inserts at one place of the view; inserting into an unlisted group does not touch it |
| UserLists.MovedViews | chat/index.go:291-356 | the views before and after a move are one common list with the user inserted at its old and its new place |
| UserLists.MovedElements | chat/index.go:291-326 | after a move the user is in exactly its new group and everybody else is where they were |
| UserLists.MovedKeepsShape | chat/index.go:281-343 | no reposition, on a fresh or a stale list, lists a user twice or confuses users with headers |
| UserLists.InsertKeepsOrdered | chat/index.go:313-326 | inserting where the binary search stops keeps a group strictly ordered |
| UserIndex.SearchGroup | chat/index.go:316-322 | the binary search stops at an index whose left neighbour the user does not precede, by display name bytewise and then ID, and whose right neighbour it does, on any sequence |
| UserIndex.MoveUser | chat/index.go:309-343 | remove, search, insert, flatten: one move in the sense used by the lemmas |
| UserIndex.FindInGroups | chat/index.go:291-308 | finds a group and place that lists the user, or tells that none does |
| UserIndex.FindFirst | chat/index.go:328-352 | the scan stops at the first index that shows the user, -1 if none does |
| UserIndex.Index.RepositionUser | chat/index.go:281-369 | moves a listed user to its group and records the span of its old and new index; leaves everything as it was for an unknown or unlisted user |
| UserIndex.RepositionedGroups | chat/index.go:281-345 | a repositioned user leaves its place for the group of its hoist, or online or offline without one, behind a neighbour it does not precede by name and ID and before one it does; every other group is as it was |
| UserIndex.RepositionedOtherwise | chat/index.go:281-300 | an unknown or unlisted user is not moved |
| UserIndex.RepositionRecords | chat/index.go:302-369 | the recorded range runs from the smaller of the user's old and new first index, the old one being -1 if there is none, through the larger; nothing is recorded when the user is not in the new view |
| UserIndex.PopulateUsers | chat/index.go:99-107 | exactly the stored users, each offline, each with an info |
| UserIndex.Index.Build | chat/index.go:444-450 | after the build every info is as computed and the list is a full rebuild that is not stale |
| UserIndex.PopulatedUsers | chat/index.go:99-107 | exactly the stored IDs are users, each as a stored row but offline |
| UserIndex.Index.ComputeUserInfo | chat/index.go:408-437 | the loop computes rank, hoist and widened permissions as characterised in Ranks |
| UserIndex.Index.UpdateUserInfos | chat/index.go:115-151 | every known user has its computed info afterwards, and the keys are unchanged |
| UserIndex.Index.UpdateUserList | chat/index.go:170-279 | installs a full rebuild, clears staleness, and appends the exact diff to the changes |
| UserIndex.RebuildStep | chat/index.go:170-279 | the step replaces the list by a rebuild, appends the diff of the views, clears the stale mark and changes nothing else |
| UserIndex.Index.AddUser | chat/index.go:471-480 | the whole new state: user stored offline, info computed, list marked stale |
| UserIndex.Index.UpdateUser | chat/index.go:482-495 | the whole new state: user and info replaced, user repositioned, its span recorded |
| UserIndex.Index.DeleteUser | chat/index.go:497-503 | the whole new state: user and info gone, list marked stale |
| UserIndex.Index.SetRole | chat/index.go:522-536 | the whole new state of AddRole and UpdateRole: role stored, list marked stale, infos not recomputed |
| UserIndex.Index.DeleteRole | chat/index.go:538-543 | the whole new state: role gone, list marked stale, infos not recomputed |
| UserIndex.Index.SetChannel | chat/index.go:562-576 | the whole new state of AddChannel and UpdateChannel |
| UserIndex.Index.DeleteChannel | chat/index.go:578-583 | the whole new state: channel gone, list marked stale |
| UserIndex.Index.PopAllChanges | chat/index.go:371-377 | hands over all changes and leaves none |
| UserIndex.Index.GetUserListSlice | chat/index.go:379-406 | Start and End are the request clamped to the view and cut to the limit, the slice is what lies between, a requested index is left out only when the limit is used up, and every group comes with its size |
| Incremental.IncrementalEqualsRebuild | chat/index.go:281-343 | if the list is a full rebuild of the old users, then after updating any of them and repositioning, it is a full rebuild of the new users |
| Incremental.RebuildHasShape | chat/index.go:170-233 | a rebuild lists nobody twice and mixes no users with headers |
| Incremental.ViewMembers | chat/index.go:194-233 | a user is in the view exactly when its group is listed |
| Incremental.ViewDistinct | chat/index.go:229-233 | no entry of the view appears twice, fresh or stale |
| Incremental.RebuildConservesUsers | chat/index.go:170-233 | every user is shown exactly once, and the view has |Users| + |GroupOrder| entries, if and only if every user belongs to a listed group |
| Incremental.CountsLocateHeaders | chat/index.go:397-403 | prefix sums of the group sizes locate each header and the users under it |
| Incremental.CountsRecoverGroup | chat/index.go:397-403 | every index of the view falls under exactly one header and shows it or one of its users |
| ViewChanges.OverlapsIffShared | chat/index.go:33-38 | two ranges overlap if and only if some index lies in both |
| ViewChanges.DiffViews | chat/index.go:235-271 | the emitted ranges are exactly the maximal runs of changed indices below the old length, and growth past an unchanged end is one empty range |
| ViewChanges.DiffDeclaresExactly | chat/index.go:235-271 | an index below the old length lies in an emitted range if and only if it was cut off or its entry differs |
| ViewChanges.DiffRanges | chat/index.go:235-271 | the emitted ranges are sorted with a gap between them, hold exactly the indices whose entry was cut off or differs, and end with one empty range at the old length if and only if the view grew and its last entry, if any, kept its place |
| ViewChanges.RepositionLocality | chat/index.go:328-366 | when old and new group are listed the views are equally long and agree outside the recorded range |
| ViewChanges.RepositionDeclaresChangesIff | chat/index.go:345-366 | the recorded range declares every changed index if and only if old and new group are both listed, or neither, or only the new one is and at most one entry of the old view lies behind the insertion place, computed from the group sizes |
| ViewChanges.EnteringPlace | chat/index.go:328-352 | a user entering the view appears where the sizes of the groups before its own and its place in it say |
| IndexRuns.NextKeepsConsistent | chat/index.go:471-583 | every operation, role updates and deletions included, keeps keys and list shape consistent |
| IndexRuns.RunKeepsConsistent | chat/index.go:471-583 | the same over every run |
| IndexRuns.NextKeepsFresh | chat/index.go:471-543 | an operation keeps the index fresh (infos as computed, and a full rebuild unless marked stale) if and only if it is not the update of an unknown user on a list that is not stale and not a role change that a holder notices |
| IndexRuns.NextKeepsInfos | chat/index.go:471-543 | infos that are as computed stay so under an operation, also while the list is stale, if and only if it is not a role change that a holder notices |
| IndexRuns.RunKeepsFresh | chat/index.go:471-543 | an index stays fresh in every state of a run of such operations |
| IndexRuns.UpdateFreshIffKnown | chat/index.go:482-495 | updating a user on a fresh list leaves it fresh if and only if the index knew the user |
| IndexRuns.RoleChangeFreshIff | chat/index.go:522-543 | setting or deleting a role keeps the index fresh if and only if no holder notices: beside the holder's other roles its position counts no more and no less than before, it is the hoist if it was, and it adds the same permissions |
| RoleChanges.InfoUnnoticedIff | chat/index.go:408-437 | a holder's rank, hoist and permissions are computed the same after the change if and only if the change goes unnoticed beside the other roles |
| RoleChanges.RankUnnoticedIff | chat/index.go:414-421 | the rank is the same if and only if the position is, or neither position is below the best of the other roles |
| RoleChanges.HoistUnnoticedIff | chat/index.go:422-425 | the hoist is the same if and only if the role outranks the other held roles both before and after, or neither |
| RoleChanges.PermissionsUnnoticedIff | chat/index.go:426-437 | the widened permissions are the same if and only if another role or the defaults bring the administrator bit, or the role does before and after, or neither and it adds the same to the others |
| IndexRuns.FreshShowsEveryone | chat/index.go:160-233 | a fresh list shows every user exactly once |
| IndexRuns.UnhoistingDropsUser | chat/index.go:530-543 | after a role is set or deleted on a fresh index, the next rebuild leaves a user out of the view if and only if that role is its stored hoist and is hoisted no more |
| IndexRuns.DroppedUserWasShown | chat/index.go:530-543 | a user that a rebuilt list leaves out had been shown as long as the list was fresh, and the index is not fresh now |
| IndexRuns.FreshIsGrouped | chat/index.go:170-233 | in a fresh list that is not stale only listed groups have users, and every stored hoist is a hoisted role: the list is grouped |
| IndexRuns.NextKeepsGrouped | chat/index.go:471-583 | an operation keeps the list grouped, however stale list and infos are, if and only if it takes away no role that is somebody's stored hoist and updates no listed user into a group the list does not have |
| IndexRuns.GroupedStaysInView | chat/index.go:281-369 | on a grouped list an update takes its user neither out of the view nor into it if and only if it keeps the list grouped |
| IndexRuns.UpdateDeclaresIff | chat/index.go:281-369 | on a grouped list the recorded range declares every index whose entry an update changed if and only if the update keeps the list grouped |
| IndexRuns.UnnoticedKeepsGrouped | chat/index.go:522-543 | with infos as computed, a role change that no holder notices takes no hoist away |
| IndexRuns.FreshIsSettled | chat/index.go:170-233 | a fresh list that is not stale is settled: grouped, and with the group order of the present roles |
| IndexRuns.NextKeepsSettled | chat/index.go:471-583 | every operation but one by which a role begins or ceases to be hoisted keeps a list settled |
| IndexRuns.SettledStaysInView | chat/index.go:281-369 | no update takes a user of a settled list out of the view or brings one in |
| IndexRuns.SettledRunKeepsGrouped | chat/index.go:471-583 | over a run from a settled list in which no role begins or ceases to be hoisted, every operation keeps the list grouped, so nothing is missed without any condition on updates |
| IndexRuns.StepDeclaresChanges | chat/index.go:235-366 | an operation only appends changes, and provided that an update takes its user neither out of the view nor into it, they declare every index whose entry changed |
| IndexRuns.RunDeclaresChanges | chat/index.go:235-377 | over a run without a pop in which no update takes its user out of the view or into it, an index that shows something else at the end than at the start lies in a recorded change |
| IndexRuns.NoMissedPush | chat/gateway.go:505-522 | over a run without a pop from a grouped list, in which no stored hoist is taken away and no listed user is updated into a group the list does not have, and however often roles change and the list goes stale and is rebuilt: if a window shows something else and not merely more at the end, a change waiting to be popped overlaps it |
| IndexRuns.RebuildTouchesIff | chat/index.go:235-271 | what a rebuild records overlaps a window no wider than a slice if and only if the old contents of the window do not begin the new; so mere growth in the window is not pushed |
| IndexRuns.NewHoistLeavesViewSilently | chat/index.go:353-356 | between setting a new hoisted role and the rebuild, an update that makes it a user's hoist takes the user out of the view and records nothing |
| Workers.StepKeepsInv | chat/index.go:129-144 | each step of any worker keeps: positions passed hold computed infos, the others the initial ones |
| Workers.StridesAreDisjoint | chat/index.go:135-141 | two workers never write the same info |
| Workers.AnyScheduleComputesAll | chat/index.go:115-151 | every interleaving of the workers ends with each known user's info as computed and every other untouched |
| Workers.SchedulesAreBounded | chat/index.go:129-146 | every step advances the total of the positions by the stride, and no position leaves the list by more than one stride, so no schedule is infinite |
| Gateway.PushChanges | chat/gateway.go:505-530 | exactly the connections whose non-empty window some non-empty popped change overlaps are sent something: their window clamped to the view and cut to 128 entries, with its bounds, its entries and every group's size |
| Gateway.SystemNextKeepsOk | chat/gateway.go:505-530 | each index operation that takes nobody out of the view or into it, and each window request, disconnect and push, keeps: whatever a client displays is current or declared changed |
| Gateway.PushLeavesNobodyBehind | chat/gateway.go:505-530 | over a run from a grouped list without clients, in which no stored hoist is taken away and no listed user is updated into a group the list does not have: right after a push every client displays the beginning of the present contents of its window |
| CacheRanges.MergeRanges | common/cache/cache.go:181-207 | the result is sorted with a real gap between neighbours and covers the same bytes, and the same gaps between bytes |
| CacheRanges.MergedRanges | common/cache/cache.go:181-207 | range by range: a byte, or a gap between bytes, is in a merged range if and only if it is in an original one, and between two merged ranges at least one byte is missing |
| CacheRanges.CanonicalUnique | common/cache/cache.go:181-207 | the canonical list with given bytes and gaps is unique, empty ranges included |
| CacheRanges.MergeIdempotentAndOrderFree | common/cache/cache.go:181-207 | merging is idempotent and does not depend on the order of the input |
| CacheRanges.MergeIncremental | common/cache/cache.go:153-157 | publishing range by range gives the same metadata as merging all at once |
| CacheRanges.GetCachedRange | common/cache/cache.go:209-241 | the answer starts at the request, is cached throughout or uncached throughout as flagged, and stops where that changes or in front of the first empty range; an inverted request is answered as a hit exactly when its end is cached |
| CacheRanges.AnswerUnique | common/cache/cache.go:209-241 | metadata and request determine that answer |
| CacheRanges.AnswerBytes | common/cache/cache.go:209-241 | byte by byte: the answer starts as requested, is cached throughout or uncached throughout, and ends at the requested end, the last byte if that is -1, or before an uncached byte or the start of a published range |
| CacheRanges.AnswerLongest | common/cache/cache.go:209-241 | the answer is the longest uniform prefix of the request, except if and only if an empty range lies behind the start of the request with nothing cached in between; never when all ranges are non-empty |
| CacheRanges.TilesPartition | common/cache/cache.go:209-241 | asking again from the byte after each answer: the answers so far are at most as many as the bytes asked for, tile them truthfully, and alternate hits and misses on non-empty ranges |
| CacheRanges.TileRequest | common/cache/cache.go:209-241 | the repeated requests come to an end, and by then the answers reach the last byte |
| CacheStore.MetadataFile.Update | common/cache/cache.go:142-179 | the first publisher's type and length are kept and the ranges become the canonical form of all published |
| CacheProtocol.MetadataBytes | common/cache/cache.go:142-179 | after an update a byte is published if and only if it was before or is in the new range, under the type and length of the first publisher |
| CacheStore.CacheMiss.Read | common/cache/cache.go:44-65 | the chunk is written at the writer's position and counted, and everything so far is published or not as the next row says |
| CacheStore.ReadPublishes | common/cache/cache.go:51-62 | above 1048576 unpublished bytes everything written so far is published and the count starts again, otherwise the metadata stays as it is |
| CacheProtocol.WrittenBytes | common/cache/cache.go:44-49 | a written chunk is in the file from the writer's position on, every other byte is as before, and what the file skips over reads as zero |
| CacheStore.CacheMiss.Close | common/cache/cache.go:67-84 | publishes all progress, an empty range when there is none |
| CacheStore.CacheWriter.Write | common/cache/cache.go:478-484 | the chunk is written and counted and nothing is published |
| CacheStore.CacheWriter.Close | common/cache/cache.go:486-506 | publishes all progress |
| CacheStore.ReadIsRun | common/cache/cache.go:44-65 | an uninterrupted read is a run of the interleaved machine by this writer alone |
| CacheStore.WriteIsRun | common/cache/cache.go:478-484 | an uninterrupted write is a run of the interleaved machine by this writer alone, with nothing published |
| CacheStore.CloseIsRun | common/cache/cache.go:67-84 | an uninterrupted close is a run of the interleaved machine |
| CacheStore.TryServeCached | common/cache/cache.go:297-360 | a request starting on a cached byte is a hit and no other is; a ranged hit ends at the requested end or before an uncached byte and sends exactly the origin's bytes, as many as advertised; a hit without range header sends the cached prefix and keeps its advertised length if and only if everything is cached |
| CacheStore.HitIsRun | common/cache/cache.go:328-356 | answering a hit and then sending all of it at once is a run of the machine: one reader more, who is sent what the file holds of the range |
| CacheProtocol.StoreKeepsGenuine | common/cache/cache.go:45-49 | writing a fetched chunk makes its bytes the origin's and spoils none that already are, wherever other writers are |
| CacheProtocol.NextKeepsInv | common/cache/cache.go:44-84 | every interleaved step keeps: published bytes are the origin's, writers and readers are on track |
| CacheProtocol.CacheSafety | common/cache/cache.go:44-84 | at every moment of every interleaving, published bytes are in the file and are the origin's, and a reader has sent exactly the origin's bytes so far |
| CacheProtocol.CopySendsOrigin | common/cache/cache.go:354-356 | a copy step of a hit never falls short and sends origin bytes |
| CacheProtocol.FinishedReaderSentWholeRange | common/cache/cache.go:336-356 | a finished ranged hit has sent origin[Start..End], as many bytes as its Content-Length |
| CacheProtocol.CoverageMonotone | common/cache/cache.go:142-179 | published coverage never shrinks |
| CacheProtocol.NextKeepsCoverage | common/cache/cache.go:54-84 | coverage is at every step the initial coverage and what each writer has published |
| CacheProtocol.CoverageExact | common/cache/cache.go:54-84 | no update is lost: once all writers closed, coverage is the initial coverage and the union of all their ranges |
| CacheProtocol.CoverageTrailsProgress | common/cache/cache.go:54-62 | between reads, published coverage trails a writer's progress by at most 1 MiB |
| ChannelPermissions.ApplyOverwrites | storage/transactions.go:1804-1832 | base and matching allows, less matching denies, administrator widened, in any order |
| ChannelPermissions.GetPermissionsByUser | storage/transactions.go:1759-1785 | defaults and roles, widened; nothing for an unknown user |
| ChannelPermissions.TransactionGetPermissionsByChannel | storage/transactions.go:1797-1832 | the effective permissions from the database, with the overwrites of the channel if it is known; nothing for an unknown user |
| ChannelPermissions.IndexGetPermissionsByChannel | chat/index.go:585-632 | the effective permissions from the index, with the overwrites of the channel if it is known; nothing for an unknown user |
| ChannelPermissions.EffectivePermissions | storage/transactions.go:1809-1832 | a bit is effective if and only if it is in the base or allowed and not denied by an overwrite for a role of the user or for the user itself; and when bit 0 is, exactly the bits 0 to 30 are |
| ChannelPermissions.DatabasePermissions | storage/transactions.go:1757-1832 | from the database: without a known channel the bits of the defaults and the held existing roles, or 0 to 30 with bit 0 among them; in a known channel what that channel's own overwrites make of these |
| ChannelPermissions.IndexPermissions | chat/index.go:585-632 | from the index as long as its infos are as computed: the same |
| ChannelPermissions.EffectiveUnique | storage/transactions.go:1804-1832 | the effective permissions are determined by which roles and overwrites there are, not by their order |
| ChannelPermissions.IndexAgreesWithDatabase | chat/index.go:585-632 | on a fresh index mirroring the tables both computations agree for every user and channel |
| ChannelPermissions.IndexRankAgrees | chat/index.go:414-421 | the rank kept in the index is the minimum over the database's roles |
| ChannelPermissions.AdministratorOrDenied | storage/transactions.go:1825-1829 | a denied permission is effective only through the administrator bit, which then gives everything |
| Hierarchy.ComputeEffectiveRank | chat/handlers.go:1220-1244 | with a cache that agrees with the roles, the memoised rank is the direct one, and the cache still agrees and has gained the user's roles |
| Hierarchy.Transaction.Check | chat/handlers.go:1035-1094 | the checks in their order come out as the checks with direct ranks, whose outcomes the next two rows characterise |
| Hierarchy.DoneIff | chat/handlers.go:1034-1094 | a request is done if and only if actor, target and role exist, bit 0 or bit 16 is in the defaults or in a role of the actor, the target holds the role exactly when it is to be removed, some role of the actor comes before the role in question, and the target is the actor or some role of the actor comes before all of the target's |
| Hierarchy.OtherOutcomesIff | chat/handlers.go:1129-1194 | an actor with the permission is told of an invalid request if and only if target or role is unknown, and that there is nothing to do if and only if the role is held already or not held; every other request not done lacks permission |
| Hierarchy.Transaction.Handle | chat/handlers.go:1024-1218 | both handlers decide like that; when done the target's roles are as before but for that role, whatever order its rows are read back in, everything else in the tables is untouched and the index has the same user offline; otherwise nothing changes |
| Hierarchy.RequestRespectsRanks | chat/handlers.go:1084-1094 | a request never changes its actor's rank or anybody but its target, and its target stays strictly below the actor |
| Hierarchy.RequestKeepsUpperRanks | chat/handlers.go:1084-1094 | an actor of rank k or worse changes no rank at or above k and lifts nobody to it |
| Hierarchy.HierarchySafety | chat/handlers.go:1024-1218 | over any run by actors of rank k or worse, the users of rank k or better and their ranks stay the same |
| Hierarchy.RequestKeepsMirror | chat/handlers.go:1096-1112 | a request done on tables and index with nothing in between leaves the index fresh and a mirror of the tables |
| Server.NextKeepsInv | chat/handlers.go:845-863 | commits of role and profile changes, index updates in any order, rebuilds and pushes keep: the tables hold the last commit of every user, the index is fresh and holds the commit applied last |
| Server.RolesSince | chat/handlers.go:1109-1112 | a user has a role if it had it at an earlier commit and an even number of commits since gave it or took it, or the other way round |
| Server.ServerMirrorsIff | chat/handlers.go:1109-1112 | in every state of every run, however handlers cross between commit and index update: the index gives the rank of the commit applied last, and it mirrors the tables, and so answers as they do, if and only if every role was given and taken an even number of times since |
| Server.OneBehindDisagrees | chat/handlers.go:1210-1213 | with exactly one later commit of a role the index holds the user the wrong way about it |
| Server.InOrderAgrees | chat/handlers.go:1109-1112 | if each user's updates reach the index in commit order, then whenever none is outstanding the index gives the database's rank for every user and its permissions for every user and channel |
| RowFolds.RowOverwrites | storage/transactions.go:318-348 | a row adds, the role's before the user's, exactly those of its overwrites whose IDs have not been seen |
| RowFolds.QueryChannels | storage/transactions.go:296-365 | from contiguous rows, one channel for each ID in order of first appearance, with its first row's columns and, for each overwrite ID, the overwrite that comes first |
| RowFolds.ChannelFoldRows | storage/transactions.go:296-365 | one channel for each ID, in the order of the first rows, with that row's columns |
| RowFolds.ChannelFoldOverwrites | storage/transactions.go:318-358 | a channel's overwrites in row order, the role's of a row before the user's, and each kept if and only if no earlier one in the channel's rows is for the same ID |
| RowFolds.FirstPerIdIsFirst | storage/transactions.go:318-348 | an overwrite is kept if and only if none before it has its ID |
| RowFolds.FirstIndicesExact | storage/transactions.go:312-356 | the blocks of rows begin exactly at the indices where an ID comes for the first time |
| RowFolds.JoinSupplies | storage/transactions.go:267-289 | the double left join supplies exactly the table rows of a channel |
| RowFolds.FoldIsLossless | storage/transactions.go:266-365 | each channel comes out once, as stored, and its overwrites are exactly its table rows, each once, if and only if no ID is both a role and a user there |
| RowFolds.QueryUsers | storage/transactions.go:204-247 | from contiguous rows, one user for each ID in order of first appearance, with its first row's columns and all its role rows in order |
| RowFolds.UserFoldRows | storage/transactions.go:204-247 | one user for each ID, in the order of the first rows, with that row's columns and no presence |
| RowFolds.UserFoldRoles | storage/transactions.go:204-247 | a user's roles are those of exactly its rows that have one, in row order |
| RowFolds.UserFoldIsLossless | storage/transactions.go:179-247 | each user comes out once, as stored, with each of its roles exactly once |
| Paging.Select | storage/transactions.go:1007-1031 | the first wanted rows in query order, as the table has them, as many as the limit admits, a negative limit being none |
| Paging.ReverseInPlace | storage/transactions.go:1044-1048 | the in-place swap loop reverses the rows |
| Paging.GetMessagesByAnchor | storage/transactions.go:1000-1051 | the page is ascending and holds the wanted messages nearest to the anchor, as the table has them |
| Paging.PageIsSlice | storage/transactions.go:1000-1051 | a page is a contiguous stretch of the channel ending at or starting behind the anchor |
| Paging.PageUnique | storage/transactions.go:1000-1051 | the page is determined by channel, anchor, limit and direction |
| Paging.PageMembers | storage/transactions.go:1000-1051 | an ID is in the page if and only if it is a message of the channel on the right side of the anchor with fewer than the limit of these nearer than itself, any number for a negative limit; and the page is ascending |
| Paging.BackwardWalkComplete | storage/transactions.go:1012-1031 | once it has ended, following Before with the oldest ID has visited every earlier message exactly once in order if and only if the limit is not 0 or there is none |
| Paging.BackwardWalkEnds | storage/transactions.go:1012-1031 | following Before cannot go on for longer than one request per earlier message and one more, and can go on until it ends |
| Paging.ForwardWalkComplete | storage/transactions.go:1018-1023 | once it has ended, following After with the newest ID has visited every later message exactly once in order if and only if the limit is not 0 or there is none |
| Paging.ForwardWalkEnds | storage/transactions.go:1018-1023 | following After cannot go on for longer than one request per later message and one more, and can go on until it ends |
| Paging.HandleMessagesRequest | chat/handlers.go:228-252 | differing anchors are refused; equal ones give the page before, the anchor message or an empty one, and the page after; otherwise one page |
| Counterexamples.MissedPush | chat/index.go:281-369 | a concrete index, fresh at first, and three operations within one rebuild interval after which a client's first two entries changed and no recorded range overlaps them |
| Counterexamples.UnknownUserIsNotListed | chat/index.go:482-495 | a user updated on an empty index is stored and not shown, and the list, no longer a rebuild, is not marked stale |
| Counterexamples.UnhoistingDropsAlice | chat/index.go:530-543 | two users shown under a role are gone from the view after it is unhoisted, or deleted, and the list rebuilt |
| Counterexamples.GrowthIsNotPushed | chat/index.go:266-270 | a user joins within a client's window and nothing the rebuild records overlaps it |
| Counterexamples.CrossedUpdatesDisagree | chat/handlers.go:1109-1112 | two requests commit in order and update the index in the other: nothing is outstanding, and the index lacks a role that the tables have |
| Counterexamples.EmptyRangeCutsMiss | common/cache/cache.go:222-226 | concrete ranges where a miss is cut short although the bytes behind are uncached too |
| Counterexamples.InvertedRequestHits | common/cache/cache.go:227-231 | a concrete request that starts behind its end and is answered as a hit of negative length |
| Counterexamples.CachedPrefixCutsShort | common/cache/cache.go:309-356 | with three of five bytes cached, a request without range header is promised five bytes and sent three |
| Counterexamples.MissingAnchorLeavesHole | chat/handlers.go:232-245 | what surrounds a missing message has an empty message in the middle |
| Counterexamples.LimitZeroEndsPaging | storage/transactions.go:1007-1031 | with limit 0 paging ends at once with two messages unvisited |
| Counterexamples.SharedIdLosesOverwrite | storage/transactions.go:318-348 | a concrete joined row whose role and user overwrites share an ID: the role's survives the fold and the user's does not |
| Paging.TwoSidedIsSegmentIff | chat/handlers.go:228-245 | the two-sided answer is a contiguous ascending segment of the channel if and only if the anchor is a message of the channel |

## Left out

- HTTP, websocket, multipart, media previews, sandboxing and file paths: plumbing around foreign
  calls.
- Embed scraping, captcha, mention extraction, JSON codecs, ID generation, relay queues, upload
  slots, rate limiting, text truncation and the emoji table: library semantics or easy.
- The SQL engine: select, join, order and limit have their standard meaning; foreign keys and the
  JSON aggregation of the message query are not modelled, so a message is its own columns.
- Errors of the database other than "not found", and the error that GetPermissionsByUser meets
  when the settings row cannot be read.
- Parsing of range headers and of the origin's Content-Range: a cache writer starts at a
  non-negative offset and its body delivers the origin's bytes from there.
- File write failures, origin content that changes, and a process that dies between writing and
  publishing. Losing the metadata file is modelled, for safety only.
- Ranges that end at the largest 64-bit integer, where End+1 would wrap around.
- UpdateUserList computes under the read lock and installs under the write lock; here it is one
  step, so an update that slips in between and is overwritten is not captured.
- Setting a client's window and sending it the slice are one step, and so is a whole round of the
  push loop in the run of `Gateway.System`; messages already on the wire are not reordered.
- Sharing of slices and of the info pointers between maps: lists and maps are values in fields.
- User presence is set to offline whenever the index stores a user, as in the source; no operation
  of the source that the model covers sets anybody online.
- Role create, update and delete requests in the hierarchy: they check one permission and no rank,
  so the role table is fixed there. A transaction is one step: the engine makes them serial.
- New users and channel changes that are committed and not yet in the index: in `Server` the users,
  roles and channels are fixed, and the commits are those of role and profile changes.
- Settings changes: the default permissions of an index are fixed.
