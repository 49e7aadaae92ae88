# Hypergoat: a verified model of its compilers, protocols and aggregates

Hypergoat indexes AT Protocol records and serves them over GraphQL. This Dafny
project models five parts of it and proves what each is for, over all inputs
and all runs:

1. **The filter compiler.** A recursive `where` tree becomes a flat SQL clause
   with hand-numbered placeholders. The clause is modelled as tokens, read back
   with SQL's precedence (AND binds tighter than OR) and evaluated in
   three-valued logic, with a new alias scope for each EXISTS. It holds of a
   record exactly when the tree does. LIKE escaping, JSON containment, the whole
   records query and keyset paging sit around it.
2. **The token protocols.** Refresh-token chains over runs that may stop
   between any two writes, DPoP proofs against the cleanup worker, and the
   bounded service-auth replay cache with its binary heap.
3. **The notification aggregate.** Envelopes whose count, sort time and latest
   record are kept up to date step by step agree with recomputing them.
4. **Labeler ingestion.** Backfill with checkpoints and crashes, the
   subscription cursor, and the bounded memo of label definitions under
   interleaved calls.
5. **Record and log sanitizing.** Two walks over one schema agree, one of them
   in place over linked maps and arrays; what a sanitized record then satisfies,
   and whether it depends on the order of its schema; UTF-8 truncation and log
   scrubbing.

`dafny verify dfyconfig.toml` checks everything.

## How the model is laid out

Where the source works step by step, a method or a class does so too, and its
`ensures` ties it to a specification function on values; the lemmas are then
about that function, or about runs of it. Strings are Go strings: one `char`
per byte; where Postgres matches patterns, the code points they encode count.
Times and counters are unbounded integers. Random values, the clock, the network, signature checks and failures of single database writes are
parameters; a run ranges over all of them.

| part | files |
|---|---|
| shared | `Wrappers.dfy` |
| filters | `Containment.dfy`, `LikePattern.dfy`, `FilterTree.dfy`, `FilterCompiler.dfy`, `SqlReading.dfy`, `FilterMeaning.dfy`, `FilterRaises.dfy`, `FilterPlaceholders.dfy`, `FilterScopes.dfy` |
| queries and paging | `RecordQuery.dfy`, `RecordQueryMeaning.dfy`, `RecordQueryText.dfy`, `Keyset.dfy`, `KeysetPages.dfy`, `RecordConnection.dfy` |
| tokens | `JtiCache.dfy`, `ServiceAuth.dfy`, `DPoPReplay.dfy`, `TokenTables.dfy`, `TokenChains.dfy` |
| notifications | `Notifications.dfy`, `NotificationStops.dfy`, `NotificationGaps.dfy`, `NotificationRuns.dfy`, `NotificationUpdates.dfy` |
| labels | `LabelBackfill.dfy`, `LabelCursor.dfy`, `LabelMemo.dfy` |
| sanitizing | `Utf8.dfy`, `LogSafe.dfy`, `RecordRules.dfy`, `RecordSanitizer.dfy`, `SanitizedRecords.dfy`, `SanitizingAgain.dfy`, `SchemaOrder.dfy`, `SchemaOrderMatters.dfy` |

## Corners

Places where a natural promise holds only under a condition. The code is modelled as it
is, and the condition is proved, where it says so, to be the exact one.

- An array filter whose inner tree has a leaf on a column other than `json`
  compiles to a name that does not resolve, as does any leaf on a column that
  the record table lacks (`FilterScopes.NamesResolve`).
- A number comparison on a text like `12abc` passes its guard and raises in the
  cast, and a date comparison has no guard at all; one such row ends the query
  (`FilterRaises.ClauseRaisesIff`); no filter could only if every guarded text
  cast (`FilterRaises.NeverRaisesIff`).
- A search text of more than 500 bytes is cut at byte 500. Inside a rune, the
  argument is no longer text and the whole query ends
  (`RecordQueryText.QueryIsTextIff`).
- The record connection prints its cursors without the fraction of a second and,
  for a custom sort, with the wrong value. Newest first, records are lost unless
  every page starts in an earlier second than the one before it ends in; oldest
  first, records come again unless every page ends on the second; sorted by
  words, only a single page is right (`RecordConnection.NewestFirstIff`,
  `OldestFirstIff`, `WordsShowOnePage`).
- A page whose records are all left out by the schema has no end cursor, and a
  client that goes on starts over (`RecordConnection.LeftOutIff`). Backward
  paging walks the same pages in the same direction, each reversed
  (`RecordConnection.Resolve`).
- `IterateAll` never ends with batch size 1 on a table that holds a record with
  the empty URI (`KeysetPages.IterateAllTerminatesIff`).
- The notification list starts over when a page that is not the last ends at
  a notification of Go's zero time, whose cursor reads as no cursor
  (`KeysetPages.ListVisitsAll`).
- The service-auth cache keeps every live entry only up to its capacity in any
  120 seconds, and lets a token in twice only with two acceptances more than
  that; the bound is exact for every capacity (`ServiceAuthSpec.NoReplayIff`).
- DPoP cleanup is safe exactly while age limit plus backward clock drift is at
  most 330 seconds; so 30 seconds of drift with the default limit
  (`DPoPReplay.NoReplayIff`).
- `OriginalIssuedAt` moves to the time of rotation when the value read is 0
  (`TokenTables.RotationKeepsOriginalIff`).
- A replayed notification under another group key leaves an envelope that
  counts nobody (`NotificationAgreement.ApplyKeepsAgreementIff`). No transaction
  spans the statements of an application or a delete: which stops do harm, and
  which a retry repairs, is `NotificationStops.StoppedApplyIff`, `RetryHealsIff`
  and `StoppedDeleteIff`. An envelope whose count a stop left wrong keeps the gap:
  one that counts too few falls while it still has participants, one that counts
  too many never falls (`NotificationGaps.GapDecides`). The one statement whose
  error is ignored leaves an envelope that counts nobody
  (`NotificationStops.FailedUndoIff`).
- A label frame refused as a whole does not move the cursor, so that it can be
  sent again; one later accepted frame is enough to lose it
  (`LabelCursor.RefusedFrameComesBackIff`). A backfill page refused as a whole
  is passed like any other (`LabelBackfill.RefusedPageComesBackIff`).
- For the record `null`, `Validate` can say valid while `SanitizeRecord`
  returns nil (`RecordRules.WalksAgreeIff`).
- A sanitized record can still show what its schema does not declare: a text cut
  out of its enumeration or format, an object behind a ref or a union that lacks
  what it requires, a ref or item of another type, and whatever is inside a
  required value, which is not looked into. `SanitizedRecords.SanitizedMeetsIff`
  is the exact condition; sanitizing such a text again makes it null
  (`SanitizingAgain.SanitizedTwiceIff`).
- The parser takes properties from a map, in an order that changes from start to
  start. Which part of a nested object is sanitized before the walk gives up on
  it depends on that order, and so can what a record shows
  (`SchemaOrderMatters.SameInAnyOrderIff`).

## Model

| member | source | states |
|---|---|---|
| Containment.BuildNestedContainment | internal/database/repositories/filter.go:1014-1025 | the inside-out loop builds the value nested under every segment of the path |
| Containment.DeepFollows | internal/database/repositories/filter.go:1014-1025 | by induction on the path: a document contains the nested object iff the path, entered through objects, ends at something that contains the value |
| Containment.ContainmentFollowsPath | internal/database/repositories/filter.go:681-698 | the same for jsonb `@>`, whose top-level exception for arrays never applies here |
| Containment.ScalarContainment | internal/database/repositories/filter.go:681-698 | for a scalar value, `eq` holds iff following the path reaches that very value |
| LikePattern.EscapeIsOnePass | internal/database/repositories/filter.go:1029-1034 | three successive whole-string replacements equal one pass that escapes each special character once |
| LikePattern.PrefixPattern | internal/database/repositories/filter.go:766-771 | under LIKE with ESCAPE '\', the escaped text followed by % matches exactly the strings with that prefix |
| LikePattern.SubstringPattern | internal/database/repositories/filter.go:759-764 | % on both sides matches exactly the strings that have the text inside |
| LikePattern.StartsWithMeansPrefix | internal/database/repositories/filter.go:766-771 | the startsWith pattern, from escapeLike itself and under ILIKE, means prefix up to case folding |
| LikePattern.ContainsMeansSubstring | internal/database/repositories/filter.go:759-764 | the contains pattern, under ILIKE, means substring up to case folding |
| FilterTree.ExtractInValues | internal/database/repositories/filter.go:1067-1084 | the scan gives the list's texts in order without its nulls, and whether it held a null |
| FilterTree.AsciiToLower | internal/database/repositories/filter.go:1045-1063 | the early-return scan and the in-place edit lower exactly the ASCII capitals |
| FilterCompiler.BuildFilters | internal/database/repositories/filter.go:354-386 | the loop over the leaves, with its running clauses, parameters and counter, is the leaf part of the specification |
| FilterCompiler.BuildChildren | internal/database/repositories/filter.go:388-399 | the same for sub-groups, empty ones dropped |
| FilterCompiler.BuildJoined | internal/database/repositories/filter.go:401-430 | the same for joined EXISTS filters, each with its target collection bound after its inner tree's parameters |
| FilterCompiler.BuildArrays | internal/database/repositories/filter.go:432-458 | the same for array EXISTS filters |
| FilterCompiler.BuildFilterGroupRecursive | internal/database/repositories/filter.go:342-475 | the four loops and the join produce the fragment that every theorem below is about, or its error |
| FilterCompiler.BuildFilterGroupClause | internal/database/repositories/filter.go:322-332 | the condition cap, then the group from the outer record's alias |
| FilterMeaning.JoinReads | internal/database/repositories/filter.go:460-475 | clauses that each read as one closed condition, joined by one operator, read as that connective over all of them and stop where the join ends |
| FilterMeaning.LeafReads | internal/database/repositories/filter.go:658-776 | every leaf's tokens read as one condition that does not swallow what follows |
| FilterMeaning.LeafMeans | internal/database/repositories/filter.go:658-776 | and that condition is true of a row, in three-valued logic, iff the leaf holds: NULL, casts, list nulls, folding and the special subjects included |
| FilterMeaning.NothingIffAbsent | internal/database/repositories/filter.go:347-399 | exactly the trees with no condition anywhere compile to nothing, and they add no argument |
| FilterMeaning.JoinedMeans | internal/database/repositories/filter.go:401-430 | a joined sub-query is true iff some record of the target collection has the referenced URI and satisfies the inner tree |
| FilterMeaning.ArrayMeans | internal/database/repositories/filter.go:432-458 | an array sub-query is true iff some element satisfies the inner tree |
| FilterMeaning.GroupMeans | internal/database/repositories/filter.go:342-475 | a group under any alias and at any depth reads as one condition that means the group |
| FilterMeaning.CompiledFilterMeansTree | internal/database/repositories/filter.go:322-475 | for every accepted tree and offset, the emitted clause, read as SQL, is true of a record exactly when the tree holds of it; empty groups are absent |
| FilterRaises.LeafRaises | internal/database/repositories/filter.go:822-842 | a leaf's condition may raise on a row iff it is an ordered one and the row's text passes the guard and does not cast |
| FilterRaises.GroupRaises | internal/database/repositories/filter.go:342-475 | the condition a group reads as may raise iff some leaf may, on the row or on one that a join or an array brings in |
| FilterRaises.ClauseRaisesIff | internal/database/repositories/filter.go:710-714 | evaluating the emitted clause on a record can raise iff some ordered leaf meets a text that passes its guard and does not cast |
| FilterRaises.TextRaises | internal/database/repositories/filter.go:822-842 | for every text that the guard lets through and that does not cast there is an accepted filter of one condition, and a record, on which evaluating the emitted clause may raise |
| FilterRaises.NeverRaisesIff | internal/database/repositories/filter.go:822-842 | no filter can raise on any record iff every text that a guard lets through casts |
| FilterRaises.GuardIsNotEnough | internal/database/repositories/filter.go:832-838 | so the guard does not suffice: `x > 5` is accepted, and a record whose x is "12abc" may end its query |
| FilterPlaceholders.PlaceholdersAreExact | internal/database/repositories/filter.go:342-475 | the clause uses each of $p to $(p+len(params)-1) exactly once and no other number |
| FilterPlaceholders.ArgumentCount | internal/database/repositories/filter.go:342-475 | the number of parameters is the leaves without isNull plus the joined filters of the whole tree |
| FilterScopes.NamesResolve | internal/database/repositories/filter.go:401-458 | every name of the clause resolves in the scope it stands in iff every column leaf names, up to letter case, a column of the record table, or `json` under an array filter |
| RecordQuery.Bind | internal/database/repositories/records.go:496-661 | a run of values is appended to the arguments under consecutive placeholders |
| RecordQuery.EmitSection | internal/database/repositories/records.go:496-661 | each section adds its clauses and arguments at the running counter |
| RecordQuery.BuildQuery | internal/database/repositories/records.go:448-690 | the imperative build, with its early returns and size limits, equals the section-by-section specification |
| RecordQueryMeaning.SectionMeans | internal/database/repositories/records.go:496-661 | one section, with the arguments bound around it, accepts a row iff the request wants the row on that point |
| RecordQueryMeaning.QueryMeansRequest | internal/database/repositories/records.go:448-690 | the query selects exactly the rows the record filter, field filter, cursor and label conditions ask for; the short circuits are taken only when that is so |
| RecordQueryMeaning.QueryPlaceholdersAreExact | internal/database/repositories/records.go:496-661 | paramIdx stays len(args)+1: over all sections $1 to $len(args) occur once each and no other number occurs |
| RecordQueryText.SearchIsTextIff | internal/database/repositories/records.go:530-534 | the cut search text is valid UTF-8 iff it was short enough or byte 500 starts a rune |
| RecordQueryText.QueryIsTextIff | internal/database/repositories/records.go:496-661 | for a valid request every argument of the query, those of the whole filter tree included, is valid UTF-8 iff the search text is not cut inside a rune |
| Keyset.BeyondIsRest | internal/database/repositories/records.go:571-584 | the rows the cursor predicate admits are exactly the rest of the ordered list |
| Keyset.WalkCompletes | internal/notifications/repo.go:235-305 | with cursors that carry the last row's own sort value, following them over a fixed table visits every row once and in order, and ends |
| Keyset.WalkCompletesIff | internal/database/repositories/records.go:1118-1177 | a walk ever ends iff no page that is gone on from ends in a row whose cursor the code reads as no cursor |
| KeysetPages.Select | internal/database/repositories/records.go:319-343 | ORDER BY with LIMIT: the first rows of the ordered list |
| KeysetPages.ListPage | internal/notifications/repo.go:235-305 | one List call is one turn of the walk: page-size default, zero-time cursor and look-ahead row included |
| KeysetPages.ListVisitsAll | internal/notifications/repo.go:235-305 | paging notifications shows each once and newest first iff no page but the last ends at the zero time |
| KeysetPages.RecordsVisitAllIff | internal/database/repositories/records.go:571-584 | the repository's keyset predicate, for a caller that hands back the last row's very sort value and URI: every record once and in order, for either direction and any page size, but for ascending single-record pages over a table whose first of several records has neither |
| RecordConnection.Resolve | internal/graphql/schema/builder.go:680-752 | one request: look-ahead row, reversal of backward pages, records left out, start and end cursor, page flags; the next position is the same in both directions |
| RecordConnection.ReverseInPlace | internal/graphql/schema/builder.go:693-698 | the swap loop reverses the page |
| RecordConnection.BeyondIsEnd | internal/database/repositories/records.go:571-584 | whatever position a cursor names, the rows beyond it are an end of the ordered list |
| RecordConnection.ShowsAllIff | internal/graphql/schema/builder.go:573-776 | for any way of forming cursors and any records left out: a client sees every record to show once and in order, and comes to the end, iff each page gone on from has an edge and the next record shown beyond its end cursor is the next to show |
| RecordConnection.AllShownIff | internal/graphql/schema/builder.go:680-752 | with no record left out: iff at every page start the cursor stands between its two neighbours |
| RecordConnection.NewestFirstIff | internal/graphql/schema/builder.go:730 | with cursors cut to the second, newest first: iff every page starts in an earlier second than the one before it ends in |
| RecordConnection.OldestFirstIff | internal/graphql/schema/builder.go:730 | oldest first: iff every page that is gone on from ends on the second |
| RecordConnection.OneSecondTwoPages | internal/graphql/schema/builder.go:730 | two records of one second, one to a page, are not both seen once in either direction |
| RecordConnection.WordsShowOnePage | internal/graphql/schema/builder.go:668-682 | for a sort field whose values all come after dates, iff everything fits one page |
| RecordConnection.LeftOutIff | internal/graphql/schema/builder.go:713-739 | with exact cursors, iff no page gone on from is left without an edge |
| KeysetPages.Process | internal/database/repositories/records.go:1161-1168 | the callback runs on the records of a batch in order, up to its first error |
| KeysetPages.IterateAll | internal/database/repositories/records.go:1118-1177 | the loop hands over every record once in URI order, or the records before the first error |
| KeysetPages.IterateAllTerminatesIff | internal/database/repositories/records.go:1118-1177 | it terminates on every table except with batch size 1 and a record with the empty URI |
| ReplaySpec.CheckKeepsLive | internal/oauth/jti_replay.go:57-91 | while there is room, a check forgets nothing that has not expired |
| ReplaySpec.CheckKeepsBound | internal/oauth/jti_replay.go:57-91 | the cache stays within capacity, and an unexpired key is lost only at capacity and only if its expiry was least |
| JtiCache.JtiReplayCache.Swap | internal/oauth/jti_replay.go:107-111 | two entries change places and their heapIdx follows |
| JtiCache.JtiReplayCache.Push | internal/oauth/jti_replay.go:113-117 | appends and restores heap order over the same entries and the new one |
| JtiCache.JtiReplayCache.Pop | internal/oauth/jti_replay.go:119-127 | removes the top, an entry of least expiry, and restores heap order over the rest |
| JtiCache.JtiReplayCache.PurgeExpired | internal/oauth/jti_replay.go:61-70 | removes exactly the entries whose expiry has passed |
| JtiCache.JtiReplayCache.CheckAndSet | internal/oauth/jti_replay.go:57-91 | map and heap keep the same entries with correct heapIdx, heap order and the size bound; true iff the key is absent after the purge; at capacity an entry of least expiry goes |
| JtiCache.JtiReplayCache.Size | internal/oauth/jti_replay.go:95-99 | the number of entries, at most the capacity |
| JtiCache.TopIsEarliest | internal/oauth/jti_replay.go:105-127 | in a heap ordered on expiry the top entry expires no later than any other |
| ServiceAuth.ServiceAuthVerifier.Verify | internal/oauth/serviceauth.go:117-205 | the checks in order, then the replay step: every call is one step of a run |
| ServiceAuthSpec.KeysDoNotCollide | internal/oauth/serviceauth.go:191-202 | for issuers without a bar the composite key names one issuer and nonce |
| ServiceAuthSpec.EntryLifetime | internal/oauth/serviceauth.go:159-204 | an accepted token's entry outlives the call and lives at most 120 seconds |
| ServiceAuthSpec.LiveEntriesAreFew | internal/oauth/serviceauth.go:159-204 | with at most `capacity` acceptances in any 120 seconds an accepting call finds room, so no live entry is evicted |
| ServiceAuthSpec.NoLiveEntryIsEvicted | internal/oauth/serviceauth.go:159-204 | then every accepted token that has not run out is still in the cache |
| ServiceAuthSpec.LossNeedsFullWindow | internal/oauth/jti_replay.go:76-85 | an entry lost before its time leaves an acceptance for every slot of the cache inside the window of any later use |
| ServiceAuthSpec.ReplayNeedsFullWindow | internal/oauth/serviceauth.go:159-204 | two acceptances of one token take capacity + 2 acceptances inside 120 seconds |
| ServiceAuthSpec.NoReplay | internal/oauth/serviceauth.go:159-204 | with a non-decreasing clock and at most capacity + 1 acceptances in any 120 seconds, no token (issuer, nonce, expiry) is accepted twice in a run |
| ServiceAuthSpec.OnlyReplaysRejected | internal/oauth/serviceauth.go:191-202 | a token is turned away as a replay only if its issuer's nonce was accepted before and has not expired |
| ServiceAuthSpec.ReplayBeyond | internal/oauth/jti_replay.go:76-85 | for every capacity, a run of capacity + 2 acceptances in which a token is accepted twice |
| ServiceAuthSpec.NoReplayIff | internal/oauth/serviceauth.go:159-204 | for every capacity and n: no run with at most n acceptances in any 120 seconds accepts a token twice, iff n is at most capacity + 1 |
| DPoPReplay.JtiTable.InsertIfNew | internal/database/repositories/oauth_dpop_jti.go:44-59 | inserts iff the identifier is new and says so |
| DPoPReplay.JtiTable.DeleteOlderThan | internal/database/repositories/oauth_dpop_jti.go:104-108 | removes exactly the rows with an earlier iat |
| DPoPReplay.JtiTable.ValidateDPoP | internal/server/oauth_handlers.go:1006-1040 | age checks, then the replay check, as one step of a run |
| DPoPReplay.JtiTable.CleanupTick | internal/server/oauth_handlers.go:1196-1206 | the cleanup cutoff is 330 seconds before the tick |
| DPoPReplay.StaysUntilCleaned | internal/database/repositories/oauth_dpop_jti.go:44-59 | an accepted proof stays in the table until a tick entitled to remove it |
| DPoPReplay.NoReplay | internal/oauth/dpop.go:332-341 | over any run of validations and ticks no proof is accepted twice, while age limit and backward drift fit the retention |
| DPoPReplay.NoReplayIff | internal/server/oauth_handlers.go:1196-1206 | for all runs, exactly when age limit plus drift is at most 330 seconds |
| DPoPReplay.DefaultsAllowThirtySeconds | internal/oauth/middleware.go:112-206 | with the default age limit the clock may run back by up to 30 seconds |
| TokenTables.TokenServer.HandleAuthorizationCodeGrant | internal/server/oauth_handlers.go:584-767 | the checks in order and the writes in order (code used, access token, refresh token), stopped after any number of them |
| TokenTables.TokenServer.HandleRefreshTokenGrant | internal/server/oauth_handlers.go:770-941 | the checks in order and the writes in order (access token, refresh token, revoke), stopped after any number of them |
| TokenTables.TokenServer.HandleRevoke | internal/server/oauth_handlers.go:975-1002 | revokes the access token and the refresh token of that text, whichever exist; either write may fail unnoticed, and an empty token is an error |
| TokenTables.TokenServer.CleanupTick | internal/server/oauth_handlers.go:1190-1206 | removes expired codes and access tokens and no refresh token |
| TokenTables.ScanOfInsert | internal/database/repositories/oauth_refresh_tokens.go:69-87 | what is read back is what was inserted, but for a zero OriginalIssuedAt |
| TokenTables.RotationKeepsOriginalIff | internal/server/oauth_handlers.go:892-909 | a rotation keeps OriginalIssuedAt iff the value read is not 0 (or the time is 0) |
| TokenChains.RunKeeps | internal/server/oauth_handlers.go:584-941 | every history of exchanges, rotations, revokes and cleanups, stopped anywhere, keeps the chain invariant |
| TokenChains.OneChainPerCode | internal/server/oauth_handlers.go:584-767 | each authorization code starts at most one chain |
| TokenChains.ChainKeepsGrant | internal/server/oauth_handlers.go:892-909 | any two tokens of a chain have the same client, user, scope, JKT and OriginalIssuedAt |
| TokenChains.LiveTokensOfChain | internal/server/oauth_handlers.go:770-941 | a started chain that was not explicitly revoked has exactly 1 + (interrupted rotations) unrevoked tokens; with explicit revokes at most that many |
| TokenChains.RefreshNeedsOriginalBinding | internal/server/oauth_handlers.go:1054-1081 | at every depth a bound chain is refreshed only by a proof with its original JKT, an unbound one only if its first token predates the cutoff |
| NotificationAgreement.ApplyKeepsAgreement | internal/notifications/repo.go:58-131 | applying a notification that is not a stray replay keeps count, sort_at and latest_* equal to recomputing them |
| NotificationAgreement.ApplyKeepsAgreementIff | internal/notifications/repo.go:96-131 | and exactly then: it fails iff a known (record, recipient) comes again under a group with no envelope |
| NotificationAgreement.SameGroupIsNotStray | internal/notifications/repo.go:106-115 | a replay with its old group key, as the comment expects, is not stray |
| NotificationAgreement.DeleteKeepsAgreement | internal/notifications/repo.go:136-195 | deleting a record's participants keeps the agreement and each envelope's fixed columns |
| NotificationStops.StoppedApplyIff | internal/notifications/repo.go:58-131 | a stop inside applyOne leaves the tables in agreement iff nothing was done, or an existing envelope was found, or a replay had nothing left to undo, or all was done and it was not stray |
| NotificationStops.RetryHealsIff | internal/notifications/repo.go:96-131 | applying again after a stop puts the tables right iff the notification is not stray and nothing was done yet, or only the envelope of its group, or everything; or a replay had found its participant and its group's envelope |
| NotificationStops.FailedUndoIff | internal/notifications/repo.go:106-115 | when the removal of a replay's new envelope fails, unnoticed, the tables stop agreeing iff there was one to remove, and applying again does not help |
| NotificationStops.StoppedDeleteIff | internal/notifications/repo.go:136-195 | a stop inside a delete leaves the tables in agreement iff every touched envelope was dealt with, but for one counted down that counted more than one participant and whose latest record is not the deleted one |
| NotificationStops.HalfwayBreaks | internal/notifications/repo.go:162-189 | a state and a stop between counting down and recomputing after which an envelope shows a deleted record |
| NotificationStops.DeleteAgainDoesNothing | internal/notifications/repo.go:139-148 | deleting again after such a stop repairs nothing |
| NotificationGaps.ApplyStopGap | internal/notifications/repo.go:58-131 | a stop before the count leaves one participant more than is counted |
| NotificationGaps.DeleteStopGap | internal/notifications/repo.go:136-166 | a stop before an envelope's turn leaves one fewer than is counted |
| NotificationGaps.GapDecides | internal/notifications/repo.go:136-195 | after any deletes an envelope stands iff none concerned it or more participants are spared than its gap, shows the newest of them, and otherwise is gone with all it still held |
| NotificationRuns.RunAgrees | internal/notifications/repo.go:58-195 | after any sequence of applications and deletions, harmless stops among them, every envelope agrees with its participants |
| NotificationRuns.ApplyTwice | internal/notifications/repo.go:49-131 | applying the same notifications again changes neither table |
| NotificationRuns.DeleteUndoesApply | internal/notifications/repo.go:49-195 | for a record with no prior participants, deleting after applying restores both tables |
| NotificationRuns.UpdateReplacesCreate | internal/notifications/service.go:44-86 | an update straight after a create leaves exactly what deleting and applying afresh would leave |
| NotificationRuns.RemoveUndoesCreate | internal/notifications/service.go:44-86 | creating and then deleting a record leaves no trace in the tables |
| NotificationUpdates.PairsShowSame | internal/notifications/repo.go:58-195 | two tables that list the same participants in the same order show the same envelopes: the aggregate is a function of the list |
| NotificationUpdates.UpdateForgetsCreate | internal/notifications/service.go:44-86 | create, then any operations on other records, then update: but for numbering, and for the reason columns, the tables are as if the update had been the first announcement |
| NotificationUpdates.LoneAlways | internal/notifications/repo.go:82-93 | in every run an envelope without a group has one participant |
| NotificationRuns.Repository.UpsertEnvelope | internal/notifications/repo.go:61-93 | the ON CONFLICT upsert finds or makes the one envelope of (did, group_key) |
| NotificationRuns.Repository.ApplyOne | internal/notifications/repo.go:58-131 | the statements of applyOne change both tables as specified, stopped after any number of them, or with the ignored removal failing |
| NotificationRuns.Repository.Apply | internal/notifications/repo.go:49-56 | the loop over a batch, ended by the first error that is noticed: the notifications passed, and part of the next; without failing removals it is the whole batch |
| NotificationRuns.Repository.DropOne | internal/notifications/repo.go:161-193 | decrement, then delete at zero, with what still belongs to it, or recompute by ORDER BY sort_at DESC, id DESC |
| NotificationRuns.Repository.DeleteByRecordURI | internal/notifications/repo.go:136-195 | the delete and the loop over its envelopes, stopped anywhere, whether or not the counts are right; complete, it keeps an agreement there was |
| LabelBackfill.Backfiller.RunBackfill | internal/labeler/consumer.go:396-469 | resume, pages, clearing and sentinel, under any stop, refused labels or failing write |
| LabelBackfill.Backfiller.FetchPages | internal/labeler/backfill.go:59-126 | the paging loop and page handler, with refused labels counted |
| LabelBackfill.Backfiller.BackfillIfNeeded | internal/labeler/consumer.go:343-362 | when it is switched off or a subscription cursor is stored nothing changes; otherwise it is one run |
| LabelBackfill.PagesSound | internal/labeler/backfill.go:59-126 | within a run the checkpoint never skips a page, completing means every page was handed over, and the cap bounds the pages |
| LabelBackfill.CheckpointNeverSkips | internal/labeler/consumer.go:396-469 | across any number of runs that stop and resume anywhere, every page before the checkpoint was handed over; once one run completes, every page was |
| LabelBackfill.UndisturbedRun | internal/labeler/backfill.go:59-126 | an undisturbed run completes iff the pages left fit the cap, else its checkpoint is a full cap further on |
| LabelBackfill.RunsFinish | internal/labeler/consumer.go:396-469 | a chain of any length completes after as many undisturbed runs as it has capfuls of pages |
| LabelBackfill.RunHands | internal/labeler/backfill.go:59-126 | a run hands over exactly the pages from its start to its stop, its cap or the end |
| LabelBackfill.RefusalsAreOnlyCounted | internal/labeler/consumer.go:418-446 | which labels are refused changes nothing but their count |
| LabelBackfill.RefusedPageComesBackIff | internal/labeler/consumer.go:418-446 | a page refused as a whole is fetched again by exactly the later runs that start at or before it and get that far |
| LabelCursor.Consumer.HandleLabelMessage | internal/labeler/consumer.go:494-528 | a frame moves the cursor forward only, and only if some label was stored or it held none |
| LabelCursor.Consumer.FlusherTick | internal/labeler/consumer.go:720-747 | a tick stores the cursor when it is past the last one stored by this flusher |
| LabelCursor.Consumer.FlushFinally | internal/labeler/consumer.go:752-765 | the last flush stores a positive cursor |
| LabelCursor.RunInvariant | internal/labeler/consumer.go:494-528 | over any run the cursor is the highest sequence number accepted so far |
| LabelCursor.StoredNeverMovesBack | internal/labeler/consumer.go:720-765 | the stored cursor never moves back and never passes what was accepted |
| LabelCursor.RefusedFrameComesBackIff | internal/labeler/consumer.go:509-518 | a frame refused as a whole is asked for again iff nothing at or above it was accepted |
| LabelMemo.Memo.Look | internal/labeler/consumer.go:687-694 | the first critical section |
| LabelMemo.Memo.Insert | internal/labeler/consumer.go:696-698 | the insert adds the row or fails the call |
| LabelMemo.Memo.Remember | internal/labeler/consumer.go:700-712 | the second critical section: re-check, evict the oldest at the bound, add |
| LabelMemo.KeyNamesOnePair | internal/labeler/consumer.go:687 | the key of a pair the database can store is the key of no other pair |
| LabelMemo.RunKeepsInv | internal/labeler/consumer.go:686-713 | under any interleaving map and order hold the same keys without duplicates, within MaxKnownVals, and each key has its definition row |
| LabelMemo.MemoHitNeverSkipsAnInsert | internal/labeler/consumer.go:686-713 | a hit, and every call that returned without an error, means that very pair has its row |
| LabelMemo.MemoIsTheLatest | internal/labeler/consumer.go:705-711 | the memo holds exactly the last MaxKnownVals keys added |
| Utf8.DecodeUndoesEncode | internal/logsafe/logsafe.go:122 | decoding an encoded scalar value gives it back, whatever follows |
| Utf8.EncodeUndoesDecode | internal/logsafe/logsafe.go:148 | a decoded rune re-encodes to the bytes it was read from |
| Utf8.ValidIffEncoded | internal/logsafe/logsafe.go:101 | the validity scan accepts exactly the encodings of scalar values (section 3 of RFC 3629) |
| Utf8.BoundaryIff | internal/lexicon/validator.go:475-484 | in a valid string the rune boundaries are exactly the bytes that are not tail bytes |
| Utf8.TruncateUtf8 | internal/lexicon/validator.go:475-484 | the backward walk stops at the last boundary within the cap |
| Utf8.TruncatedIsLongestValidPrefix | internal/lexicon/validator.go:475-484 | truncating a valid string gives its longest valid prefix within the cap |
| LogSafe.String | internal/logsafe/logsafe.go:90-159 | fast path and slow loop give the same scrubbed and truncated value |
| LogSafe.NeedsScrub | internal/logsafe/logsafe.go:164-174 | the byte scan and the two substring searches |
| LogSafe.NeedsScrubIff | internal/logsafe/logsafe.go:164-174 | on a valid string the byte-level scan finds exactly the strings with a rune to replace |
| LogSafe.CleanIsSafe | internal/logsafe/logsafe.go:90-159 | the output is valid UTF-8, at most 256 bytes, free of scrubbed runes, and rune for rune the input with replacements, for as long as it fits |
| LogSafe.UnchangedIff | internal/logsafe/logsafe.go:95-103 | a value comes out unchanged iff it was safe already |
| LogSafe.CleanTwice | internal/logsafe/logsafe.go:90-159 | cleaning is idempotent |
| RecordRules.ValidateProperties | internal/lexicon/validator.go:99-199 | the accumulating loop reports exactly the violations of each property, in order |
| RecordRules.Validate | internal/lexicon/validator.go:53-92 | valid iff the collection is unknown, or the JSON parses, $type fits and every required property is met |
| RecordRules.FatalIffRequiredUnmet | internal/lexicon/validator.go:79-96 | the report holds a "[required]" violation iff a required property is unmet |
| RecordRules.WalkMeets | internal/lexicon/validator.go:216-302 | with distinct names the walk keeps the record iff every required property is met, no key comes or goes, and each field depends on itself alone |
| RecordRules.WalksAgreeIff | internal/lexicon/validator.go:53-210 | Validate says valid iff SanitizeRecord is non-nil, for any schema with distinct names and a matching $type, but for the record `null` |
| RecordRules.RepeatedNamesDisagree | internal/lexicon/validator.go:216-302 | with a name declared twice, which no parsed schema has, the two can disagree |
| RecordRules.NulledIffReported | internal/lexicon/validator.go:247-299 | for typed properties an optional value is nulled iff Validate reports it |
| RecordRules.NulledIsReported | internal/lexicon/validator.go:247-299 | no typed optional value is nulled unreported |
| RecordSanitizer.TruncateString | internal/lexicon/validator.go:463-471 | bytes first, then grapheme clusters |
| RecordSanitizer.CheckJSONType | internal/lexicon/validator.go:391-428 | the type check on live values is the one on the document they show |
| RecordSanitizer.Unmarshal | internal/lexicon/validator.go:59-65 | decoding a document gives a fresh tree of maps and arrays that shows it |
| RecordSanitizer.SanitizeObject | internal/lexicon/validator.go:216-302 | overwriting the map in place, through nested refs, unions and arrays, leaves a tree that shows exactly what the walk on values gives, to depth 32 |
| RecordSanitizer.SanitizeArrayItems | internal/lexicon/validator.go:305-325 | each object item is sanitized in place and becomes null when its walk returns nil |
| RecordSanitizer.SanitizeRefObject | internal/lexicon/validator.go:328-338 | a referenced object is sanitized in place and kept whatever its walk returns |
| RecordSanitizer.SanitizeUnionObject | internal/lexicon/validator.go:341-361 | the loop over the refs finds the branch that the object's own $type names, if it resolves |
| RecordSanitizer.SanitizeRecord | internal/lexicon/validator.go:205-210 | the same map, sanitized, or nil |
| SanitizedRecords.MeetsIff | internal/lexicon/validator.go:216-361 | at any depth, what the walk leaves is as declared, through refs, unions and items, iff everything is met that it cannot mend |
| SanitizedRecords.SanitizedMeetsIff | internal/lexicon/validator.go:7-11 | every declared property of a kept record is null or has its type, format, enumeration and length, down to depth 32, iff every cut text still passes, refs, unions and items hold what they should, nested requirements are met, and required values were right already |
| SanitizingAgain.SanitizedTwiceIff | internal/lexicon/validator.go:205-361 | sanitizing a kept record again changes nothing iff every text that the walk gets to still passes once it is cut |
| SanitizingAgain.MeetingIsUntouched | internal/lexicon/validator.go:216-361 | what is as declared comes out unchanged |
| SanitizingAgain.MendedIsStable | internal/lexicon/validator.go:216-361 | a record that the walk can mend needs it only once |
| SanitizingAgain.CutOutOfEnumeration | internal/lexicon/validator.go:260-272 | a record whose text is cut out of its enumeration, is shown so, and becomes null the next time |
| SanitizingAgain.UnmetRefStays | internal/lexicon/validator.go:328-338 | a record that keeps an object without what its definition requires |
| SchemaOrder.RecordInAnyOrder | internal/lexicon/parser.go:237-257 | the order of a record's own properties never matters |
| SchemaOrder.AnyOrderIff | internal/lexicon/parser.go:237-257 | every order of a definition leaves the same of a nested object iff it meets its requirements or nothing in it would change |
| SchemaOrder.CalmInAnyOrder | internal/lexicon/parser.go:237-257 | where every object behind a ref or a union meets its requirements or holds nothing that would change, all the way down, the walk leaves the same for every order of every definition |
| SchemaOrder.MendedIsCalm | internal/lexicon/validator.go:216-361 | a record that the walk can mend is such a record |
| SchemaOrderMatters.RestlessDiffers | internal/lexicon/validator.go:216-361 | for any other object there are two orders of the definitions that leave different fields |
| SchemaOrderMatters.SameInAnyOrderIff | internal/lexicon/parser.go:237-257 | SanitizeRecord gives the same for every order of every definition iff it refuses the record, or that condition holds |
| SchemaOrderMatters.OrderShows | internal/lexicon/parser.go:237-257 | two orders of one definition, and a record that shows a text whole under one and cut under the other |

## Left out

Not modelled:

- HTTP plumbing, redirects, form parsing, websockets, logging, metrics, GraphQL wiring and the web client.
- Signatures, hashes, PKCE and JWT parsing: a proof or token enters with the library's verdict as a parameter.
- The PostgreSQL engine: casts, text order, number order and text search are parameters of the SQL reading, and a failing cast is read as an unknown truth value; `FilterRaises.ClauseRaisesIff` says when there is one, and the query then ends in an error.
- Case mappings of more than one character in ILIKE and LOWER.
- The base64 and JSON text of a cursor: pages are walked with the position it names.
- Rows whose sort value is NULL in a custom sort: the cursor predicate does not reach them.
- Inserts and deletes while a walk is under way.
- OAuth sessions, the authorize and callback steps, and interleavings inside one grant handler other than its stop points.
- Refresh tokens whose stored OriginalIssuedAt is 0 at the start of a history, and clocks that read 0: chains assume positive dates, and `TokenTables.RotationKeepsOriginalIff` says what happens otherwise.
- Unread counts, marking as seen, retention and the advisory lock of notifications.
- What each notifier extracts from a record: the extracted notifications are a parameter.
- The race of an old connection's cursor flusher with a cleared cursor, and clearing the cursor after OutdatedCursor.
- Label validation and storage inside `upsertLabels`: which labels were refused is a parameter.
- Reconnect backoff and statistics.
- Format checks, grapheme segmentation and the float-to-integer comparison: parameters of the two walks.
- A negative maxLength or maxGraphemes in a lexicon, on which the Go code would panic: lengths are natural numbers.
- The texts of violation messages, other than whether they start with "[required]".

Stated with an assumption, or in a reduced form:

- ServiceAuthSpec.KeysDoNotCollide: assumes issuers without a bar, which the DID syntax guarantees.
- ServiceAuthSpec.NoReplay: assumes a non-decreasing clock and at most capacity + 1 acceptances in any 120 seconds; `ServiceAuthSpec.NoReplayIff` shows the second is exact.
- LikePattern.StartsWithMeansPrefix: assumes that case folding, code point by code point, leaves the three special characters alone.
- LikePattern.ContainsMeansSubstring: the same assumption.
- FilterMeaning.CompiledFilterMeansTree: join paths and array paths are field extractions from the outer record, as the registry builds them; for evaluations that do not raise, and `FilterRaises.ClauseRaisesIff` says which can.
- RecordQueryMeaning.QueryMeansRequest: for a query that Postgres runs to its end; `FilterRaises.ClauseRaisesIff` and `RecordQueryText.QueryIsTextIff` say when it may not.
- NotificationUpdates.UpdateForgetsCreate: envelopes are compared without `reason` and `reason_subject`, which stay those of whichever notification made the envelope; the operations in between are taken to be neither stray nor harmfully stopped on either side.
- RecordConnection.NewestFirstIff: the session's time zone is UTC, as the literal Z of the cursor expects; `RecordConnection.ShowsAllIff` holds for any cursors.
- RecordConnection.Resolve: cursors are taken as decoded, filters as applied to the table, and counts and labels are not part of it.
- FilterScopes.NamesResolve: Postgres's functional notation (a function called as if it were a column) is not counted as a column.
- FilterMeaning.LeafMeans: a leaf on a column compares the column's text; a text that does not cast is an unknown truth value here and ends the query in Postgres, which `FilterRaises.LeafRaises` states.
- FilterMeaning.GroupMeans: the same of a group; `FilterRaises.GroupRaises` says when it may happen.
- FilterRaises.ClauseRaisesIff: of the record's texts; a filter value that does not convert fails the whole request whatever the rows.
- NotificationRuns.DeleteUndoesApply: up to the id sequences, which do not run back, and for batches without stray replays.
- LabelBackfill.CheckpointNeverSkips: for a page chain that stays the same from run to run and whose cursors are distinct.
- LabelMemo.RunKeepsInv: assumes that PostgreSQL refuses text with a zero byte; `LabelMemo.KeysCanCollide` shows that without this two pairs could share a key.
- KeysetPages.Select: a table is a set of rows with distinct (sort value, id), as primary keys make them.
- RecordSanitizer.SanitizeObject: the map is a tree, as decoding makes it (`RecordSanitizer.Unmarshal`); the Go map's spare capacity and aliasing by other holders are not represented.
- SanitizedRecords.SanitizedMeetsIff: definitions are taken not to declare `$type`, whose sort of name the AT Protocol data model reserves, and the first n grapheme clusters of a text to be at most n clusters and no longer than the text.
- SanitizingAgain.SanitizedTwiceIff: the same assumptions.
- RecordQueryText.QueryIsTextIff: text means valid UTF-8; a zero byte, which Postgres also refuses, is not looked for.
- NotificationGaps.GapDecides: for deletes that run to their end, one after another.
