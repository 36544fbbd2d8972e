# Match-pool engine of a club sports-session back end, in Dafny

This project models the core of a club back end. Members of a club join a
session, wait in the session's queue, are grouped four at a time into a
*match pool* of two teams (TEAM_A and TEAM_B), and a full pool is turned
into a *match* on a free court of the session. Around that engine sit the
session lifecycle, the session queue, club members with a member allowance,
and club subscriptions.

The database is one object, `Store.Db`, whose fields are the tables:
- Keyed tables are `map`s from row id to row: sessions, queues, pools,
  courts, matches, members, clubs, plans and subscriptions.
- The three tables whose order matters are `seq`s in creation order: queue
  entries, pool participants and match participants.
- Generated ids come from one counter, `nextId`.

Each service call is a method over `Db`. It either fails with the service's
error and changes nothing, or it makes exactly the writes its `modifies`
clause and postconditions state. `Db.Valid()` is kept by every call:
- ids are unique and increase along the ordered tables;
- queues and pools belong to existing sessions, and pool rows to existing pools;
- every id in use is below `nextId`;
- no user owns two clubs.

The selection maths of `generateMatchPool` is modelled in two forms:
- as reference functions: `Choose` (all r-subsets in lexicographic order),
  `GroupDiff`, `FirstBest` and `Preferred`;
- as the source's loops: `AllQuadruples`, `PickBestGroup`, `ImproveWith`
  and `BestPairing`, each proved equal to its reference function.

What the source promises is then proved about the reference functions:
minimality, first-wins tie-breaking, C(n,4) groups, that "diff ≤ 3" means
"diff = 0", that the "could not form" branch is unreachable, and that the
selected group is four distinct queued entries.

Modules:
- `Common`: Option, Result, the service errors, `Filter` and the positions it keeps.
- `Skill`: the level-to-power table.
- `Balance`: the three 2v2 splits, balance scores and `pickBestGroup`.
- `Combinations`: C(n, r) and the four nested loops.
- `PlayedKey`: the sorted member-id key of a group.
- `Rows`: id-ordered row tables.
- `Store`: the database.
- `Selection`: steps 3 to 8 of `generateMatchPool`.
- `MatchPoolGenerate`: `generateMatchPool` on the store.
- `MatchPoolService`: `addToMatchPool`, `removeFromMatchPool` and `createBalancedMatch`.
- `MatchCreation`: `createSessionMatch`.
- `MatchPoolQueries`: the two match-pool reads.
- `Paging`: skip/take/totalPages.
- `SessionQueueService`, `SessionService`, `MemberService` and `SubscriptionService`: the other four services.

## Model

| member | source | states |
|---|---|---|
| Skill.Power | src/app/modules/MatchPool/matchPool.service.ts:5-10 | CASUAL, BEGINNER, INTERMEDIATE and ADVANCED map to 50, 60, 80 and 90, each level to its own value, and every power is a multiple of 10 between 50 and 90 |
| Skill.PowerOrCasual | src/app/modules/MatchPool/matchPool.service.ts:187-188 | a missing level scores as CASUAL (50); a present level scores its table value |
| Skill.PowerInjective | src/app/modules/MatchPool/matchPool.service.ts:5-10 | two levels have the same power exactly when they are the same level |
| Balance.PowerOf | src/app/modules/MatchPool/matchPool.service.ts:230-240 | a candidate without a member row scores as CASUAL; every score is a multiple of 10 between 50 and 90 |
| Balance.PairingIsSplit | src/app/modules/MatchPool/matchPool.service.ts:171-184 | each of the three team options splits positions 0..3 into two disjoint pairs covering all four, with position 0 in TEAM_A |
| Balance.Team | src/app/modules/MatchPool/matchPool.service.ts:261-262 | a team is the group's members at the option's indices, in index order |
| Balance.TeamPowerRange | src/app/modules/MatchPool/matchPool.service.ts:190-191 | a team of k members has power between 50k and 90k, a multiple of 10 |
| Balance.PairingDiffTens | src/app/modules/MatchPool/matchPool.service.ts:192 | the power difference of any split of a group of 4 is a multiple of 10 and at most 80 |
| Balance.MinOfFirst | src/app/modules/MatchPool/matchPool.service.ts:186-198 | the best difference over the first t splits is no larger than any of them and is attained by one of them |
| Balance.WithinThresholdIsZero | src/app/modules/MatchPool/matchPool.service.ts:207-208 | with powers in tens, a group's difference is ≤ 3 exactly when it is 0 |
| Balance.Scores | src/app/modules/MatchPool/matchPool.service.ts:170-199 | one balance score per group, in order, each the group's best split difference |
| Balance.FirstMin | src/app/modules/MatchPool/matchPool.service.ts:194 | the first index holding the minimum: no later score is smaller and every earlier one is strictly larger |
| Balance.FirstMinStep | src/app/modules/MatchPool/matchPool.service.ts:194-197 | the first minimum of a longer prefix moves to the new index exactly when the new score is strictly smaller |
| Balance.FirstBest | src/app/modules/MatchPool/matchPool.service.ts:166-201 | the index of the first group with the overall minimum difference: no group is better and every earlier group is strictly worse |
| Balance.ImproveWith | src/app/modules/MatchPool/matchPool.service.ts:186-198 | the inner loop over the three splits moves the accumulators to the group exactly when its best split strictly beats the best difference so far (None standing for Infinity) |
| Balance.PickBestGroup | src/app/modules/MatchPool/matchPool.service.ts:166-201 | returns the first group with the global minimum difference, and that difference; an empty list gives the empty group and no difference |
| Balance.FirstBestPairing | src/app/modules/MatchPool/matchPool.service.ts:257-272 | the first split whose difference is the group's minimum: every earlier split is strictly worse, and both teams are pairs of positions |
| Balance.BestPairing | src/app/modules/MatchPool/matchPool.service.ts:257-272 | the pairing loop of `createBalancedMatch` picks the first best split, and its difference equals the group's difference as `pickBestGroup` computes it |
| Balance.LadderExample | src/app/modules/MatchPool/matchPool.service.ts:242-272 | CASUAL, BEGINNER, INTERMEDIATE and ADVANCED are split {0,3} against {1,2}, with difference 0 |
| Combinations.AppendQuadruplesAt | src/app/modules/MatchPool/matchPool.service.ts:148-152 | the k and l loops append, in order, every quadruple that extends the pair (i, j) |
| Combinations.AppendQuadruplesFrom | src/app/modules/MatchPool/matchPool.service.ts:147-153 | the j loop appends, in order, every quadruple that starts with i |
| Combinations.AllQuadruples | src/app/modules/MatchPool/matchPool.service.ts:145-154 | the four nested loops produce exactly `Choose(scope, 4)`, the index quadruples i<j<k<l in lexicographic order |
| Combinations.Pascal | src/app/modules/MatchPool/matchPool.service.ts:145-154 | Pascal's rule for the binomial coefficients that count the groups |
| Combinations.ExtendCount | src/app/modules/MatchPool/matchPool.service.ts:145-154 | extending a prefix by r of the remaining elements gives C(remaining, r) groups |
| Combinations.ExtendShape | src/app/modules/MatchPool/matchPool.service.ts:145-154 | every extension has the prefix followed by exactly r further elements |
| Combinations.QuadrupleCount | src/app/modules/MatchPool/matchPool.service.ts:145-154 | there are C(n, 4) groups, each of 4 |
| Combinations.SmallBinomials | src/app/modules/MatchPool/matchPool.service.ts:128 | C(4,4)..C(8,4) are 1, 5, 15, 35 and 70 |
| Combinations.ScopeQuadrupleBounds | src/app/modules/MatchPool/matchPool.service.ts:128-154 | a scope of 4 to 8 candidates gives between 1 and 70 groups |
| Combinations.ExtendKeepsOrder | src/app/modules/MatchPool/matchPool.service.ts:146-150 | from an id-ordered list, every extension is id-ordered and drawn from the prefix and the rest of the list |
| Combinations.ChooseKeepsOrder | src/app/modules/MatchPool/matchPool.service.ts:146-150 | every group drawn from an id-ordered list is id-ordered and holds only the list's elements |
| PlayedKey.Insert | src/app/modules/MatchPool/matchPool.service.ts:139 | inserting into a sorted list keeps it sorted and adds exactly that element |
| PlayedKey.Key | src/app/modules/MatchPool/matchPool.service.ts:136-142 | the key of a group is its member ids, sorted, as a multiset the same ids |
| PlayedKey.SortedUnique | src/app/modules/MatchPool/matchPool.service.ts:139-140 | two sorted lists with the same elements are equal |
| PlayedKey.KeyIdentifiesMembers | src/app/modules/MatchPool/matchPool.service.ts:157-163 | two groups have the same key exactly when they hold the same member ids, in any order |
| Rows.IndexOf | src/app/modules/MatchPool/matchPool.service.ts:23-29 | `findUnique` by id on a table of rows (also matchPool.service.ts lines 68-73 and sessionQueue.service.ts lines 78-84): the position of the row with that id, or None when no row has it |
| Rows.DeleteAtKeepsOrder | src/app/modules/SessionQueue/sessionQueue.service.ts:86-88 | deleting one row keeps the table id-ordered and removes exactly the rows with that id |
| Rows.RemoveIdAt | src/app/modules/SessionQueue/sessionQueue.service.ts:86-88 | in an id-ordered table, `delete where id` is removal at that row's index |
| Rows.RemoveAbsentId | src/app/modules/SessionQueue/sessionQueue.service.ts:86-88 | deleting an id no row carries changes nothing |
| Store.QueueOf | src/app/modules/MatchPool/matchPool.service.ts:106-110 | a queue's entries are the table's entries with that queue id, in creation order |
| Store.QueueOfKeepsOrder | src/app/modules/MatchPool/matchPool.service.ts:106-110 | a queue read from an id-ordered table is id-ordered (`orderBy createdAt asc`) |
| Store.PoolRows | src/app/modules/MatchPool/matchPool.service.ts:352-360 | a pool's rows are the participant rows carrying its id, in order |
| Store.PoolRowsAppend | src/app/modules/MatchPool/matchPool.service.ts:278-286 | reading a pool's rows from a table with appended rows reads both parts in order |
| Store.OtherRows | src/app/modules/MatchPool/matchPool.service.ts:396-398 | deleting a pool's rows leaves exactly the other pools' rows |
| Store.OtherRowsDropPool | src/app/modules/MatchPool/matchPool.service.ts:396-398 | after the delete the pool has no rows and every other pool keeps its rows |
| Store.MatchRows | src/app/modules/MatchPool/matchPool.service.ts:388-394 | one match row per pool row with the same member and team, with consecutive new ids |
| Store.Db.AddPool | src/app/modules/MatchPool/matchPool.service.ts:274-276 | a new pool of the session with a fresh id, which no participant row carries yet |
| Store.Db.MoveToPool | src/app/modules/MatchPool/matchPool.service.ts:47-62 | appends the pool row and deletes exactly the one queue entry, in one step |
| Store.Db.MoveToQueue | src/app/modules/MatchPool/matchPool.service.ts:75-84 | deletes exactly the one pool row and appends one queue entry |
| Store.Db.AddMatch | src/app/modules/MatchPool/matchPool.service.ts:378-394 | adds the match under a fresh id and one match row per pool row |
| Store.Db.DeletePool | src/app/modules/MatchPool/matchPool.service.ts:396-398 | removes the pool and exactly its rows |
| Store.Db.BookCourt | src/app/modules/MatchPool/matchPool.service.ts:400-403 | sets the court's `isBooked` and nothing else |
| MatchPoolService.CountRows | src/app/modules/MatchPool/matchPool.service.ts:31-38 | the duplicate guard's count of rows with the same pool, member and team |
| MatchPoolService.CountRowsAppend | src/app/modules/MatchPool/matchPool.service.ts:31-38 | counting over appended rows adds up |
| MatchPoolService.AddToMatchPool | src/app/modules/MatchPool/matchPool.service.ts:12-65 | fails without writing when the pool is missing, the entry is missing, exactly 2 duplicate rows exist, or the session has no queue; otherwise one transaction appends one row with the entry's member and the team and deletes exactly that entry |
| MatchPoolService.AddKeepsAtMostTwo | src/app/modules/MatchPool/matchPool.service.ts:38 | while no (pool, member, team) has more than 2 rows, the `=== 2` guard keeps it so |
| MatchPoolService.RemoveFromMatchPool | src/app/modules/MatchPool/matchPool.service.ts:67-87 | fails, writing nothing, exactly on an unknown row and succeeds on every known one; it then deletes that row and appends one entry for its member whose queue id is the pool's session id, as written |
| MatchPoolService.RemoveFromMatchPoolToQueue | src/app/modules/MatchPool/matchPool.service.ts:67-87 | corrected: an unknown row gives "MatchPoolParticipant not found"; a known row succeeds exactly when its pool's session has a queue, and otherwise gives "SessionQueue not found"; the appended entry carries that queue's id |
| MatchPoolService.RoundTripLosesMember | src/app/modules/MatchPool/matchPool.service.ts:47-84 | as written, a member moved into a pool and removed again no longer waits in the session's queue |
| MatchPoolService.ReturnedEntryOutsideQueue | src/app/modules/MatchPool/matchPool.service.ts:78-83 | as written, the returned entry leaves the session's queue exactly as it was |
| MatchPoolService.ReturnedEntryRejoinsQueue | src/app/modules/MatchPool/matchPool.service.ts:78-83 | corrected: the member rejoins the session's queue, at its end |
| MatchPoolService.TeamRows | src/app/modules/MatchPool/matchPool.service.ts:279-286 | one team loop creates one row per member, in order, with consecutive ids |
| MatchPoolService.AddStepSucceeds | src/app/modules/MatchPool/matchPool.service.ts:279-286 | inside `createBalancedMatch`, each `addToMatchPool` finds its entry and the duplicate count is below 2, so none of its errors can occur |
| MatchPoolService.AddTeam | src/app/modules/MatchPool/matchPool.service.ts:279-286 | one team loop adds one row per member, in order, and removes exactly their entries from the queue |
| MatchPoolService.AddTeams | src/app/modules/MatchPool/matchPool.service.ts:278-286 | TEAM_A's rows then TEAM_B's rows are added, and exactly the group's entries leave the queue |
| MatchPoolService.SplitTeams | src/app/modules/MatchPool/matchPool.service.ts:278-286 | the two teams of a queued group are queued, share no entry, and together hold every entry of the group |
| MatchPoolService.AllocateTeams | src/app/modules/MatchPool/matchPool.service.ts:274-295 | creates one pool of the session, adds TEAM_A then TEAM_B, and returns the pool with the entry ids of the group and of each team |
| MatchPoolService.CreateBalancedMatch | src/app/modules/MatchPool/matchPool.service.ts:222-296 | a group that is not of size 4 writes nothing; a queued group of 4 is allocated under its first best split |
| MatchCreation.NewMatch | src/app/modules/MatchPool/matchPool.service.ts:378-386 | the match has the pool's session, the court's court id and the session's club, and lasts exactly 3,600,000 ms from `now` |
| MatchCreation.CreateSessionMatch | src/app/modules/MatchPool/matchPool.service.ts:345-409 | fails without writing when the pool is missing, has fewer than 4 rows, or the court is missing or booked, or belongs to another session; it succeeds exactly when all these checks pass, and then one transaction creates the match and its rows, deletes the pool with its rows and books the court |
| MatchCreation.CommitMatch | src/app/modules/MatchPool/matchPool.service.ts:377-406 | the transaction's writes, in order: match, match rows, pool deletion, booking |
| MatchCreation.MatchTakesPool | src/app/modules/MatchPool/matchPool.service.ts:388-398 | afterwards the pool has no rows, other pools keep theirs, and the match holds one row per former pool row with the same member and team |
| MatchCreation.SplitRows | src/app/modules/MatchPool/matchPool.service.ts:278-286 | a split group's rows are two TEAM_A rows then two TEAM_B rows holding the group's four members |
| MatchCreation.AllocatedPoolIsFull | src/app/modules/MatchPool/matchPool.service.ts:274-286 | a pool made by `generateMatchPool` has exactly 4 rows, so it passes the `< 4` guard of `createSessionMatch` |
| Selection.GenderFilter | src/app/modules/MatchPool/matchPool.service.ts:116-122 | MALE or FEMALE keeps exactly the entries whose member has that gender; MIXED keeps every entry |
| Selection.GenderFilterKeepsOrder | src/app/modules/MatchPool/matchPool.service.ts:119-121 | filtering keeps queue order |
| Selection.Scope | src/app/modules/MatchPool/matchPool.service.ts:128 | the scope is the first min(8, n) filtered entries |
| Selection.Fresh | src/app/modules/MatchPool/matchPool.service.ts:157-163 | a group is kept if and only if it is one of the groups and its key is not among the played keys |
| Common.FilterPicksKeptPositions | src/app/modules/MatchPool/matchPool.service.ts:157-163 | the filter keeps a sub-list in order: its k-th element is the input's element at the k-th kept position, and the kept positions increase and include every position whose element passes |
| Selection.FreshPick | src/app/modules/MatchPool/matchPool.service.ts:157-204 | the first best group not played before sits at a position of the enumeration where no fresh group is better balanced and every fresh group before it is strictly worse |
| Selection.PreferredTakesFreshPick | src/app/modules/MatchPool/matchPool.service.ts:204-208 | when the first best fresh group is within the threshold, the choice is the group at FreshPick, which was not played before |
| Selection.FirstBestIsMinimum | src/app/modules/MatchPool/matchPool.service.ts:166-201 | the first best group is no worse than any group of the list |
| Selection.Preferred | src/app/modules/MatchPool/matchPool.service.ts:203-214 | the choice is empty exactly when there are no groups; otherwise it is one of the groups |
| Selection.PickWithPolicy | src/app/modules/MatchPool/matchPool.service.ts:203-210 | the two `pickBestGroup` calls and the threshold test compute the fresh-first choice |
| Selection.SelectGroup | src/app/modules/MatchPool/matchPool.service.ts:112-214 | the guards, filter, scope, enumeration and policy compute the reference selection |
| Selection.SelectedFailsOnlyOnGuards | src/app/modules/MatchPool/matchPool.service.ts:112-214 | the selection fails exactly when the queue has fewer than 4 entries, the gender filter leaves fewer than 4, or an entry in scope has no member row; "Could not form any match" never occurs |
| Selection.PreferredIsBalanced | src/app/modules/MatchPool/matchPool.service.ts:203-210 | the chosen group's difference is the minimum over all groups |
| Selection.PreferredPrefersFresh | src/app/modules/MatchPool/matchPool.service.ts:204-208 | if some group not played before is within the threshold, the chosen group is one not played before |
| Selection.PreferredFallsBack | src/app/modules/MatchPool/matchPool.service.ts:208-210 | if no fresh group is within the threshold, the choice is the first best of all groups |
| Selection.SelectedIsBalanced | src/app/modules/MatchPool/matchPool.service.ts:128-214 | a selected group is one of the C(n,4) groups of a scope of 4 to 8 candidates, and no group of the scope is better balanced |
| Selection.SelectedFromQueue | src/app/modules/MatchPool/matchPool.service.ts:106-154 | a selected group is 4 distinct candidates of the queue, in queue order |
| MatchPoolGenerate.CandidateOf | src/app/modules/MatchPool/matchPool.service.ts:106-110 | a queue entry read with its member: same entry and member ids, and a profile exactly when the member row exists |
| MatchPoolGenerate.MatchMembers | src/app/modules/MatchPool/matchPool.service.ts:131-134 | every participant row of a match contributes its member id |
| MatchPoolGenerate.MatchMembersCount | src/app/modules/MatchPool/matchPool.service.ts:131-138 | each member id occurs in a match's member list exactly as many times as participant rows of that match record it |
| MatchPoolGenerate.MatchMembersExact | src/app/modules/MatchPool/matchPool.service.ts:131-138 | an id is in a match's member list if and only if some participant row of that match records it |
| MatchPoolGenerate.PlayedKeys | src/app/modules/MatchPool/matchPool.service.ts:130-142 | the played set holds exactly the keys of the session's previous matches |
| MatchPoolGenerate.SelectionIsQueued | src/app/modules/MatchPool/matchPool.service.ts:106-217 | a successful selection is 4 distinct entries of the session's queue, as `createBalancedMatch` needs |
| MatchPoolGenerate.GenerateMatchPool | src/app/modules/MatchPool/matchPool.service.ts:89-220 | fails without writing when the session or its queue is missing or the selection fails; otherwise allocates the selected group, under its first best split, to a new pool |
| MatchPoolQueries.GetMatchPoolById | src/app/modules/MatchPool/matchPool.service.ts:331-343 | the pool with exactly its rows, or "MatchPool not found" |
| MatchPoolQueries.SelectedPools | src/app/modules/MatchPool/matchPool.service.ts:303-306 | exactly the pools of the given session, or every pool when none is given |
| MatchPoolQueries.AllPoolsCounted | src/app/modules/MatchPool/matchPool.service.ts:307-309 | without a session filter every pool is counted |
| MatchPoolQueries.GetAllMatchPools | src/app/modules/MatchPool/matchPool.service.ts:298-329 | counts every selected pool, returns page `page` of at most `limit` of them, and reports no page count |
| Paging.Skip | src/app/modules/MatchPool/matchPool.service.ts:300 | `skip` is (page − 1) · limit |
| Paging.Window | src/app/modules/MatchPool/matchPool.service.ts:310-313 | a page holds at most `limit` rows, exactly the rows from offset `skip` on |
| Paging.TotalPages | src/app/modules/Session/session.service.ts:102 | the least number of pages of `limit` rows that hold `count` rows (the ceiling) |
| Paging.Paginate | src/app/modules/Session/session.service.ts:66-105 | the meta block has page, limit, the full count and the page count; the data is that page of the rows |
| Paging.TableRows | src/app/modules/Session/session.service.ts:82-85 | a table read in id order, with one row per key |
| Paging.TableRowsSound | src/app/modules/Session/session.service.ts:82-85 | every row read is a row of the table |
| Paging.TableRowsComplete | src/app/modules/Session/session.service.ts:82-85 | every row of the table is read |
| Paging.PagesArePrefix | src/app/modules/Session/session.service.ts:69-70 | the first n pages together are the first n · limit rows |
| Paging.PagesCoverRows | src/app/modules/Session/session.service.ts:69-102 | reading pages 1 to `totalPages` reads every row exactly once, in order |
| Paging.PastLastPageIsEmpty | src/app/modules/Session/session.service.ts:69-102 | a page beyond `totalPages` is empty |
| Paging.RowOnPage | src/app/modules/Session/session.service.ts:69-70 | row k appears on page k / limit + 1, at position k mod limit |
| Paging.RowBeforeLastPage | src/app/modules/Session/session.service.ts:102 | every row's page is at most `totalPages` |
| SessionQueueService.GetSessionQueue | src/app/modules/SessionQueue/sessionQueue.service.ts:4-19 | the session's queue with exactly its entries, or "SessionQueue not found" (also `getCurrentSessionQueue`, lines 60-75) |
| SessionQueueService.PageOfQueue | src/app/modules/SessionQueue/sessionQueue.service.ts:37-57 | as written, the page is the queue window and `totalCount` is the length of that page, at most `limit` |
| SessionQueueService.CountedPageOfQueue | src/app/modules/SessionQueue/sessionQueue.service.ts:37-57 | corrected: `totalCount` is the queue's length |
| SessionQueueService.CountedPagesReadQueue | src/app/modules/SessionQueue/sessionQueue.service.ts:53 | corrected: `totalCount` is the same on every page, and paging to its page count reads the whole queue |
| SessionQueueService.PageCountIsNotQueueSize | src/app/modules/SessionQueue/sessionQueue.service.ts:53 | as written, a queue of 11 read 10 at a time reports `totalCount` 10 on page 1 and 1 on page 2 |
| SessionQueueService.QueueOfWhole | src/app/modules/SessionQueue/sessionQueue.service.ts:37-41 | a table whose entries all belong to one queue is that queue |
| SessionQueueService.GetSessionQueueParticipants | src/app/modules/SessionQueue/sessionQueue.service.ts:21-58 | "SessionQueue not found" when the session has no queue; otherwise page `page` of its entries, with `totalCount` ≤ `limit` |
| SessionQueueService.DeleteQueueParticipant | src/app/modules/SessionQueue/sessionQueue.service.ts:77-91 | "Participant not found" on an unknown id; otherwise removes exactly that entry, keeps the others in order and returns the entry as it was |
| SessionService.CheckSession | src/app/modules/Session/session.service.ts:6-41 | the checks in order (clubId, both times, start < end, start not in the past, no overlapping active session of the club); on success an active session of the given type or DOUBLES |
| SessionService.TouchingSessionsConflict | src/app/modules/Session/session.service.ts:28-41 | the intervals are closed: a session starting the instant another active one ends is refused |
| SessionService.CheckedSessionKeepsApart | src/app/modules/Session/session.service.ts:28-53 | a session that passes the checks keeps each club's active sessions pairwise non-overlapping |
| SessionService.CreateSession | src/app/modules/Session/session.service.ts:6-65 | fails without writing on a failed check; otherwise one transaction adds exactly one session and one queue pointing at it, and it keeps the clubs' active sessions apart: if no two overlapped before, none do after |
| SessionService.Deactivated | src/app/modules/Session/session.service.ts:201-203 | the session with `isActive` false and every other field kept |
| SessionService.DeactivatingKeepsApart | src/app/modules/Session/session.service.ts:197-204 | deactivating keeps active sessions apart |
| SessionService.MembersOutside | src/app/modules/Session/session.service.ts:231-235 | exactly the members not attached to the session, unchanged |
| SessionService.EndSession | src/app/modules/Session/session.service.ts:209-238 | "Session not found", or "Session is already ended" for an inactive one; it succeeds exactly on an existing active session, and one transaction deactivates it and deletes every member attached to it, and the record as it was is returned |
| SessionService.DeleteSession | src/app/modules/Session/session.service.ts:186-207 | fails only on an unknown id; otherwise only deactivates, so deleting an inactive session succeeds and changes nothing |
| SessionService.GetActiveSession | src/app/modules/Session/session.service.ts:240-248 | some active session of the club, or none exactly when the club has none |
| SessionService.InsertByStart | src/app/modules/Session/session.service.ts:92-94 | inserting a row adds exactly that row |
| SessionService.InsertKeepsOrder | src/app/modules/Session/session.service.ts:92-94 | inserting into a latest-first list keeps it latest first |
| SessionService.NewestFirst | src/app/modules/Session/session.service.ts:92-94 | `orderBy startTime desc`: the same rows, latest start first |
| SessionService.SelectedSessions | src/app/modules/Session/session.service.ts:72-76 | exactly the sessions of the given club, or every session |
| SessionService.ClubSessions | src/app/modules/Session/session.service.ts:72-95 | the selected sessions, latest start first |
| SessionService.GetAllSessions | src/app/modules/Session/session.service.ts:66-106 | counts the selected sessions, returns page `page` of them latest first with the page count (also `getMyClubSessions`, lines 108-153) |
| SubscriptionService.EndDate | src/app/modules/Subscription/subscription.service.ts:26-28 | the end date is exactly `duration` whole days (of 86,400,000 ms) after the start |
| SubscriptionService.ClubOwnedBy | src/app/modules/Subscription/subscription.service.ts:99-103 | `findUnique({ ownerId })`: the club owned by the user, or none when no club has that owner |
| SubscriptionService.TakeSubscription | src/app/modules/Subscription/subscription.service.ts:5-39 | "Club not found" or "Subscription plan not found", writing nothing; otherwise exactly one active subscription of the club to the plan from `now` to its end date |
| SubscriptionService.Cancelled | src/app/modules/Subscription/subscription.service.ts:132-135 | the subscription inactive and ending `now`, its other fields kept |
| SubscriptionService.CancelSubscription | src/app/modules/Subscription/subscription.service.ts:117-139 | fails on an unknown id; otherwise deactivates it, ending `now`, and returns the record as it was |
| SubscriptionService.GetCurrentSubscription | src/app/modules/Subscription/subscription.service.ts:98-115 | "Club not found" exactly when the user owns no club; otherwise an active subscription of that club, or none exactly when it has none |
| SubscriptionService.GetAllSubscriptions | src/app/modules/Subscription/subscription.service.ts:41-68 | ignores the user: every subscription is counted and paged |
| MemberService.Charged | src/app/modules/Member/member.service.ts:59-66 | the club's `remainingMembers` goes down by one, with no lower bound |
| MemberService.AdmitAsWritten | src/app/modules/Member/member.service.ts:31-53 | as written, admission needs some club owned by a user whose id is the club's id |
| MemberService.Admit | src/app/modules/Member/member.service.ts:31-53 | corrected: refused exactly for an unknown club, or a club with no active subscription and no slots left |
| MemberService.OwnerLookupRejectsClub | src/app/modules/Member/member.service.ts:44 | a club with free slots, whose id is no owner's id, is refused as written and admitted as intended |
| MemberService.OwnerLookupOfOwnClub | src/app/modules/Member/member.service.ts:44-53 | looked up through the club's own owner, the subscription lookup finds that club and admits exactly as intended |
| MemberService.AllowanceCanGoNegative | src/app/modules/Member/member.service.ts:46-66 | with an active subscription, a club at 0 slots admits and its count goes to −1 |
| MemberService.AttachSession | src/app/modules/Member/member.service.ts:11-29 | a member payload is kept; a guest is attached to an active session of the club, or refused with "No active session found" exactly when there is none |
| MemberService.AddMember | src/app/modules/Member/member.service.ts:55-66 | adds the member under a fresh id and charges one slot to its club |
| MemberService.CreateMember | src/app/modules/Member/member.service.ts:8-69 | as written: the session step ("No active session found" exactly for a guest whose club has no active session), "Club not found", the owner-keyed subscription lookup, the capacity gate; it succeeds exactly when the session step and the as-written admission pass, and then exactly one member is added and the club charged |
| MemberService.CreateMemberCorrected | src/app/modules/Member/member.service.ts:8-69 | corrected: the same steps, with "No active session found" exactly for a guest whose club has no active session, and otherwise success exactly when the club's own subscription admits |
| MemberService.Patched | src/app/modules/Member/member.service.ts:173-178 | each field given by the update is overwritten and every other field is kept |
| MemberService.PatchLaws | src/app/modules/Member/member.service.ts:173-178 | an empty update changes nothing, and applying an update twice is applying it once |
| MemberService.UpdateMember | src/app/modules/Member/member.service.ts:158-181 | "Club not found" for an unknown new club, a not-found error for an unknown member, otherwise the member patched |
| MemberService.DeleteMember | src/app/modules/Member/member.service.ts:183-201 | fails on an unknown id; otherwise removes the member and returns it, without giving back the club's slot |
| MemberService.ClubMembers | src/app/modules/Member/member.service.ts:77-81 | exactly the members of the given club, or every member |
| MemberService.GetAllMembers | src/app/modules/Member/member.service.ts:71-105 | counts the selected members and returns page `page` of them with the page count (also `getMyClubMembers`, lines 107-139) |

## Left out

- Concurrency: each `prisma.$transaction` block is one atomic step. `removeFromMatchPool`, pool creation plus the four adds, and `createMember` are consecutive steps with no interleaving.
- Ids: every generated uuid comes from one counter, `nextId`. So a new id is unique across all tables and larger than every id in use. Queue order (`createdAt asc`) is creation order.
- PlayedKey.Key: sorts ids as numbers, not as strings, and the `"-"` join is the sorted sequence itself. So the key identifies the same sets of members but not the same string.
- The clock: `new Date()` and `Date.now()` are an integer parameter `now`, in milliseconds. Invalid dates and non-numeric `page`/`limit` values are not modelled.
- Paging.Paginate: requires `page ≥ 1` and `limit ≥ 1`. A zero or negative page or limit gives a negative `skip` or a non-finite page count, which the model does not give meaning to.
- Listings: a table without `orderBy` is read in id order. Ties between sessions with the same start time fall in insertion-sort order, not the database's order.
- MatchPoolService.AddTeam: requires what `generateMatchPool` hands over (a queued group and an empty team). `createBalancedMatch` is private and is only called there, so `addToMatchPool`'s error paths inside it are proved unreachable rather than modelled.
- MatchPoolService.CreateBalancedMatch: same readiness requirement as AddTeam.
- MatchPoolGenerate.GenerateMatchPool: returns the allocation of `createBalancedMatch`, where the source returns nothing.
- Logging, `include` shapes of the replies and HTTP status codes are left out. Errors are a `Result` with one `Error` constructor per thrown message. `QueueParticipantNotFound` is "SessionQueueParticipant not found" and `ParticipantNotFound` is "Participant not found". Two constructors stand for failures that are not `ApiError`s: MissingMemberRow (a `TypeError`) and UpdateMember's MemberNotFound (Prisma's error), both listed below.
- Foreign keys: the store invariant ties queues and pools to sessions and pool rows to pools, and nothing else. Deleting a pool deletes its rows: `DeletePool` assumes the relation cascades, and the schema is not part of this model. Every other reference is unchecked and may dangle:
  - the `sessionQueueId` that `RemoveFromMatchPool` writes;
  - queue, pool and match rows whose member is removed by `EndSession` or `DeleteMember`;
  - the `sessionId` that `CreateMember` and `UpdateMember` store.
- Foreign-key rejections: were the database to reject a write whose parent is missing, `removeFromMatchPool`'s create (matchPool.service.ts lines 79-84) would throw after its delete (lines 75-77), and `createSessionMatch`'s transaction would roll back. The model lets every such write succeed.
- Page and limit defaults: every listing falls back to `page = 1, limit = 10` when the request leaves them out. In the model both are parameters the caller always passes.
- `generateMatchPool` falls back to `genderType = MIXED` when the request leaves it out (matchPool.service.ts line 91). In the model the gender type is a parameter the caller always passes.
- Error MissingMemberRow: it stands for the uncaught `TypeError` that `p.member.id` throws (matchPool.service.ts line 159) when a queue entry in scope has no member row. The source never reports it as an `ApiError`.
- Two checks cannot fail once their lookup has succeeded, and are not modelled: the second "Session not found" check in `createMember` (line 24), and `!sessionQueueParticipants` in `getSessionQueueParticipants` (line 49).
- SubscriptionService.TakeSubscription: a new subscription is active; the schema's `isActive` default is not part of this model.
- MemberService.UpdateMember: a missing member, which Prisma reports as its own error from `update`, is the MemberNotFound result.
- Plain CRUD that only reads or writes one row by id is not part of this model: `getSingleSession`, `updateSession`, `getSingleMember` and `getSingleSubscription`.
- `getMyClubSessions` and `getMyClubMembers` are the same queries as the listings with a club filter given. They are covered by GetAllSessions and GetAllMembers with `Some(clubId)`.
- Controllers, routes, middleware, JWT helpers and `subscriptionPlan.service.ts` are not part of this model.

## Findings

| source | as written | input that shows it | evidently intended | confidence | as-written member | corrected member |
|---|---|---|---|---|---|---|
| src/app/modules/MatchPool/matchPool.service.ts:81 | `removeFromMatchPool` writes the pool's `sessionId` into the new entry's `sessionQueueId` (the as-written member assumes the create succeeds, i.e. no foreign key rejects it) | a member queued in session s (queue q ≠ s), added to a pool and removed: the new entry belongs to no queue of s, and the member no longer waits in q | the entry joins the session's queue q | not executed | MatchPoolService.RemoveFromMatchPool, MatchPoolService.RoundTripLosesMember | MatchPoolService.RemoveFromMatchPoolToQueue, MatchPoolService.ReturnedEntryRejoinsQueue |
| src/app/modules/SessionQueue/sessionQueue.service.ts:53 | `totalCount` is the length of the page returned | a queue of 11 entries with limit 10: page 1 reports 10, page 2 reports 1 | `totalCount` is the queue's length, as in the other listings | not executed | SessionQueueService.PageOfQueue, SessionQueueService.PageCountIsNotQueueSize | SessionQueueService.CountedPageOfQueue, SessionQueueService.CountedPagesReadQueue |
| src/app/modules/Member/member.service.ts:44 | `createMember` passes the club id to `getCurrentSubscription`, which looks the club up by owner id | club 1 owned by user 7 with 5 free slots: every new member is refused with "Club not found" | the club's own subscription decides admission | not executed | MemberService.AdmitAsWritten, MemberService.OwnerLookupRejectsClub | MemberService.Admit, MemberService.OwnerLookupOfOwnClub |
