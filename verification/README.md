# Proofs about the Essensys user portal backend

This project models the parts of the portal backend that carry state from one request to the
next, as tables and steps on them, and proves what holds for every input and every run.

* **Command queue and block merge.** Commands for a cabinet wait in `cloud_actions`. A poll takes
  the oldest ones, folds each run of light and shutter commands into one block, and marks the
  originals delivered; an acknowledgement closes what was delivered. The documentation promises
  that the delivery has the same effect as the commands one by one
  (`docs/features/portal-action-merge.md`). `CabinetFollowsQueue` proves it over whole runs, and
  `CabinetCatchesUp` that enough polls always get there.
  `Decimal` and `Bits` hold the text and 64-bit arithmetic, `MergeParams` the merge loop,
  `Cabinets` what a cabinet does, `Grouping` and `Coalescing` the runs, `LostLaunch` an input where
  the promise fails, `ActionQueue` and `QueueRuns` the table.
* **Command expansion, exchange cache and scenario definitions** (`Expansion`, `ExchangeCache`,
  `CacheRaces`, `Scenario`). The cache is a list that stands for a map, and a definition written to
  a slot reads back as written.
* **Credentials and sessions** (`RememberSessions`, `ResetTokens`, `Identity`, `LoginRuns`,
  `ResetRuns`, `ResetRaces`). Every write path is a step on the account, session and token tables. A
  login and a password reset are two steps each, a request for a reset link three, so that requests
  race. The first two modules prove what each table keeps; `Identity` shows how every event acts on
  both; it, `LoginRuns` and `ResetRuns` draw the conclusions for whole runs; `ResetRaces` shows what
  overlapping requests can do.
* **Light names** (`LightNames`, `LightNameRaces`). A gateway sync computes, light by light, the
  first candidate with the latest stamp, and reaches a fixed point after one exchange. Portal
  renames may overlap it.
* **Quotas and support reports** (`SlidingWindow`, `RateLimit`, `SupportReports`, `SupportRuns`,
  `SupportRaces`). The in-memory limiter, the quota on support reports with its retry instant, the
  backoff of send attempts, and report statuses.

## Where the code and its promises differ

* The merge promises a block with the same effect (`internal/domain/merge_params.go:52-61`), and
  also writes "1" at index 590. A block command may carry another 590, which launches a scenario;
  merged, that launch disappears. `MergeKeepsEffectIff` and `CoalescedKeepsEffectIff` give the exact
  condition, and `LaunchLost` two completed commands that show the loss.
* `MarkActionDone` matches its GUID in any status (`internal/data/store.go:309-313`), so that an
  acknowledgement of a pending action closes it before any cabinet sees it. `NothingSkippedIff`
  proves over all runs that nothing is skipped if and only if no acknowledgement names an action
  that is still pending; `AckSkips` is the shortest run that loses one.
* Issuing a reset link promises that every earlier link becomes unusable
  (`internal/data/password_reset_store.go:64-65`). Retiring and inserting are separate statements.
  `OneLinkIff` proves over all runs that an account never has two outstanding links if and only if
  no link is stored while another is outstanding; `AtMostOneLink` that this is so when the writes of
  its requests do not overlap. In `RaceBreaksBoth` any number of overlapping requests leave as many
  usable links.
* The quota of 3 self-service links is counted before the link is stored
  (`internal/identity/forgot_password.go:103-111`). `QuotaIff` proves over all runs that it holds if
  and only if it would have held each time a link was stored; `SelfServiceQuota` that this is so
  when the account's requests do not overlap. `RaceBreaksBoth` breaks it with four.
* So is the quota on support reports (`internal/support/service.go:151-159`), and with it the instant
  a refused account is told: `SupportReports.QuotaIff`, `RetryAtIff` and `RaceBreaksQuota`.
* The exchange cache is read and written in two statements (`internal/data/exchange.go:18-44`), so
  that overlapping pushes can lose one (`PushLost`). `PushesKeptIff` says exactly when none is lost.
* A report is stored and then sent without looking at it again
  (`internal/support/service.go:170-176`), and so is a report the syncer listed. A syncer round
  between the insert and the own send makes two attempts at once, opens two issues, and may reopen a
  closed report: `LateSendBreaksBackoff`, `LateSendReopens`. `AttemptsIff`, `StatusesMoveForwardIff`
  and `FinalIsFinalIff` give the exact conditions over all runs, `SendsApartFindDue` the corollary
  that all is well when the sends of a report do not overlap.
* A password change "must never leave a 30-day session alive" (`internal/data/user_store.go:110-113`).
  A login reads the password first and stores its session later, so that one with the old password
  may store it after the change (`StaleLogin`). `SessionsMatchIff` says exactly when every session
  matches the password of its account.
* `PutLightNameExact` overwrites whatever is stored (`internal/data/light_names_store.go:76-87`), so
  that a sync can take back a portal rename made since it read the rows (`RenameLost`).
  `NoStampGoesBackIff` and `AnswerIsStoredIff` say exactly when.
* The fixed point of the light-name sync needs nothing of the stored rows or of the clock:
  `SyncReachesFixedPoint` has no precondition.

## How the model reads the source

* Table rows are sequences in creation order; ids grow with it. Each SQL statement or transaction
  that writes is one atomic step that succeeds, and what a request read before is kept from the step
  that read it: this holds for logins, requests for a reset link, password resets, support
  submissions and their sends, syncer rounds, cache pushes and gateway syncs. A poll with its
  updates, a session refresh, a write of a scenario and a GitHub call with the write of its outcome
  are one step each. The database clock and the program's clock are one clock. Times are integer
  milliseconds.
* A map iteration of the source visits its keys in arbitrary order (`Sequences.Pick`).
* Masks are sets of bits: `|` is union, `&^` is difference. `Bits.MaskOfInt` and
  `Decimal.AtoiOfItoa` show that nothing is lost between text, integer and mask.
* A cabinet processes the parameters of a block in list order: a mask at an index moves its devices
  to that side of the pair, 590 = "1" triggers the block itself, any other 590 launches a scenario.
  What launches, non-numeric values and foreign actions do is an arbitrary function of the firmware.
* Token and GUID generation, password hashing and GitHub answers are parameters; digests and GUIDs
  are opaque identifiers. The catalogue of light ids is a parameter.

## Model

| member | source | states |
|---|---|---|
| `Decimal.AtoiOfItoa` | internal/domain/merge_params.go:71-94 | a mask written as decimal text parses back to the same 64-bit integer, negative ones included |
| `Decimal.AtoiMeans` | internal/domain/merge_params.go:71-75 | digits after one sign or none are read as their value when it fits 64 bits, and refused when it does not |
| `Bits.MaskOfInt` | internal/domain/merge_params.go:80-84 | every set of 64 bits is the bits of exactly the integer the model writes for it |
| `Bits.BitIsParity` | internal/domain/merge_params.go:80-83 | bit `b` of an integer, negative ones included, is the parity of what is left after dividing by 2^b |
| `MergeParams.OppositePairs` | internal/domain/merge_params.go:13-24 | the pairs are symmetric: lights 605+i and 611+i, shutters 617+i and 620+i |
| `MergeParams.IsPureBlockAction` | internal/domain/merge_params.go:37-50 | true iff every parameter is 605..622, 590, or 623 = "0", and one is 605..622; so the scan decides it |
| `MergeParams.MergeBlockActions` | internal/domain/merge_params.go:62-101 | the nested loops over chunks compute the block the replay of all parameters in order renders |
| `MergeParams.ReplayConsistent` | internal/domain/merge_params.go:63-88 | for every input the loop keeps `raw` and `masks` disjoint, and no bit on both indexes of a pair |
| `MergeParams.MergedShape` | internal/domain/merge_params.go:90-100 | the output is 590 = "1", 605..622, 623 = "0", strictly increasing, 20 entries, itself a pure block |
| `MergeParams.MergedNeverConflicts` | internal/domain/merge_params.go:80-86 | no merged block moves one device both ways, whatever the inputs |
| `MergeParams.BitIsLastIntent` | internal/domain/merge_params.go:54-60 | a bit stands on an index iff an order put it there and no later order on the opposite index, or non-numeric one on its own, took it away |
| `MergeParams.RawIsLastIntent` | internal/domain/merge_params.go:57-59 | a non-numeric value stands iff it is the last intent on its index ("0" is no intent) |
| `MergeParams.MergedTextIff` | internal/domain/merge_params.go:71-78 | in the merged block a text that is no number stands on an index iff it is the last value but "0" the commands gave to that index |
| `MergeParams.MergedBitIff` | internal/domain/merge_params.go:79-86 | in the merged block a bit is set on a numeric index iff some entry set it there and no later one set it on the opposite index or put a text that is no number |
| `MergeParams.MergeAbsorbs` | internal/domain/merge_params.go:62-101 | merging a merged block with later commands equals merging all the commands, non-numeric values included |
| `Cabinets.MergeKeepsEffect` | internal/domain/merge_params.go:52-61 | on numeric commands that launch nothing, the merged block leaves every cabinet as the commands in order do |
| `Cabinets.MergeKeepsEffectIff` | internal/domain/merge_params.go:52-61 | that claim holds for every cabinet iff no merged command carries a 590 other than "1" |
| `Grouping.CoalesceIncremental` | internal/data/store.go:244-266 | grouping maximal runs is incremental for any delivery that absorbs its own output |
| `Coalescing.CoalescePendingActions` | internal/data/store.go:244-266 | the two index loops deliver each maximal pure run merged, anything else unchanged |
| `Coalescing.CoalescingPartitions` | internal/data/store.go:240-266 | the queue is cut in order and without loss; one output per group: a single action unchanged, several merged in order under GUID, user and machine of the last |
| `Coalescing.OutputsAlternate` | internal/data/store.go:252-263 | no two neighbouring outputs are pure |
| `Coalescing.DeliveryFitsFirmware` | internal/data/store.go:258-262 | actions of at most 30 parameters are delivered with at most 30 |
| `Coalescing.ForeignActionsUnchanged` | internal/data/store.go:247-251 | the foreign actions come out identical and in order |
| `Coalescing.OutletCommandsUnchanged` | internal/domain/merge_params.go:34-36 | commands with 623 other than "0" are never merged, dropped, duplicated or reordered |
| `Coalescing.CoalescedIncremental` | internal/data/store.go:244-266 | coalescing a coalesced queue with later actions equals coalescing the whole queue |
| `Coalescing.CoalescedIdempotent` | internal/data/store.go:244-266 | a coalesced queue has nothing left to coalesce |
| `Coalescing.CoalescedKeepsEffect` | internal/data/store.go:240-266 | the coalesced queue acts on any cabinet as the actions one by one, if merged actions are numeric and launch nothing |
| `Coalescing.CoalescedKeepsEffectIff` | internal/data/store.go:240-266 | on numeric values that effect is kept for every cabinet iff no merged action launches a scenario |
| `LostLaunch.LaunchLost` | internal/handlers/portal.go:266-270 | two commands, each completed before it is queued, after which a cabinet that records launches stands otherwise than after their coalesced delivery |
| `Coalescing.WhenAllThenWhenMerged` | internal/data/store.go:244-266 | a condition all block actions satisfy is satisfied by every merged run |
| `ActionQueue.ActionStore.EnqueueCloudAction` | internal/data/store.go:147-158 | a pending row is appended, or nothing happens when the GUID exists |
| `ActionQueue.ActionStore.FetchPendingActionsForMachine` | internal/data/store.go:188-238 | takes the oldest pending rows of the machine, as many as there are up to the limit (20 when none is given), passes none over, returns them coalesced, and exactly the rows with their GUIDs become delivered |
| `ActionQueue.BatchTakesOldest` | internal/data/store.go:189-206 | the batch is those rows, in order, its length the smaller of the limit and the number of pending rows of the machine |
| `ActionQueue.ActionStore.MarkActionDone` | internal/data/store.go:301-322 | row by row: the named row and the delivered rows of its machine are done, every other row is as it was; an unknown GUID changes nothing |
| `QueueRuns.MarkTakesPrefix` | internal/data/store.go:231-235 | marking a fetched batch leaves exactly the later actions of the machine pending, in order |
| `QueueRuns.QueueServesInOrder` | internal/data/store.go:147-322 | over every run and for any acknowledgements, fetched then pending actions are exactly those queued, in order and once each, less those acknowledged while pending |
| `QueueRuns.QueuedAreEnqueued` | internal/data/store.go:147-158 | the actions queued for a machine are exactly those its enqueues of the run brought, in order, each GUID the first time it came |
| `QueueRuns.PollsTake` | internal/data/store.go:188-238 | after any run, further polls of a machine take its pending actions in order, the sum of their limits of them, and leave exactly the rest |
| `QueueRuns.PollsDrain` | internal/data/store.go:188-238 | after any run, further polls whose limits add up to the number of its pending actions, so as many polls as actions always, leave none pending |
| `QueueRuns.NothingSkippedIff` | internal/data/store.go:309-313 | over every run nothing queued is skipped iff no acknowledgement named an action that was still pending |
| `QueueRuns.AckSkips` | internal/data/store.go:309-313 | the shortest run that loses a command: queued, acknowledged, gone before any poll |
| `QueueRuns.CabinetFollowsFetched` | internal/data/store.go:188-238 | over every run whose merged actions of the machine are numeric and launch nothing, its cabinet stands as if it had executed the fetched actions one by one |
| `QueueRuns.CabinetFollowsFetchedIff` | internal/data/store.go:188-238 | on numeric values that holds for every cabinet iff no merged action of the machine launches a scenario |
| `QueueRuns.CabinetFollowsQueue` | internal/data/store.go:147-322 | when acknowledgements follow polls, merged actions are numeric and launch nothing, and nothing is pending any more, the cabinet stands as after every command ever queued for it, in order |
| `QueueRuns.CabinetCatchesUp` | internal/data/store.go:147-322 | so after any such run enough further polls bring the cabinet to the effect of every command queued for it |
| `QueueRuns.StatusOnlyAdvances` | internal/data/store.go:231-313 | no event removes a row, changes its action, or moves its status back |
| `Expansion.ExpandLegacyScenarioBlock` | internal/domain/order_expansion.go:22-53 | unchanged when no index is in 605..623; else in increasing order exactly 590, 605..623 and the indexes asked for, asked ones with their last value, the others "0" and 590 "1" |
| `Expansion.ExpansionCompletes` | internal/domain/order_expansion.go:19-53 | every completion of a light or shutter command holds 623, "0" unless the command asks for another value, and likewise index by index |
| `Expansion.ExpansionIsUnique` | internal/domain/order_expansion.go:47-52 | the map iteration order cannot be seen in the result |
| `Expansion.ExpansionIsIdempotent` | internal/domain/order_expansion.go:19-53 | completing a completed command changes nothing |
| `Expansion.ExpansionIsPureIff` | internal/domain/order_expansion.go:19-53 | the completed command may be merged iff the command names only 590 and 605..623, with last 623 = "0" if any |
| `Expansion.ExpandedCommandMergesSafely` | internal/domain/order_expansion.go:19-53 | a numeric command naming no 590 is completed to one whose merge loses nothing: its values stay numeric and its 590 is "1" |
| `ExchangeCache.FilterExchangeKeys` | internal/data/exchange.go:82-97 | the entries with a requested key in list order; everything for an empty request |
| `ExchangeCache.FilterIsExact` | internal/data/exchange.go:82-97 | what it returns: exactly the entries with a requested key, each in its place and as often as stored |
| `ExchangeCache.MergeExchangeKeys` | internal/data/exchange.go:100-118 | the loops look requested keys up in the overridden map; an empty request returns both lists |
| `ExchangeCache.ReadIsExact` | internal/data/exchange.go:99-118 | a read returns exactly the requested known keys in request order, the cached value before telemetry |
| `ExchangeCache.ExchangeStore.UpsertGatewayExchange` | internal/data/exchange.go:18-44 | a first push is stored as is; later lists have distinct keys and stand for the old map overridden; other machines are untouched |
| `ExchangeCache.CacheRefinesMap` | internal/data/exchange.go:18-44 | after any pushes one after the other, in any key orders, the list stands for the pushes overridden in order |
| `ExchangeCache.KeysStayDistinct` | internal/data/exchange.go:20-33 | keys stay distinct for good once a non-empty list has been merged |
| `CacheRaces.PushesKeptIff` | internal/data/exchange.go:18-44 | with reads and writes of pushes interleaved, the cache stands for all written pushes iff each, when it wrote, had seen everything it did not overwrite |
| `CacheRaces.PushesApartKept` | internal/data/exchange.go:18-44 | so none is lost when no push is written between the read and the write of another |
| `CacheRaces.PushLost` | internal/data/exchange.go:18-44 | two overlapping pushes of one key each, of which the first is lost |
| `Scenario.ValidateDefinition` | internal/domain/scenario/actions.go:35-51 | accepts iff slot 1..8 and every key in the slot with a numeric value 0..255; an error names a real offender |
| `Scenario.ChunkExchangeParams` | internal/domain/action_chunk.go:5-21 | the pieces concatenate to the input, none empty or above the maximum, all but the last full |
| `Scenario.WriteDefinitionChunks` | internal/domain/scenario/actions.go:53-73 | 30 then 11 entries that together are the 41 of the slot in order, each given value at its index and "0" elsewhere; succeeds iff slot 2..8 and every value valid, slot 1 being refused once valid |
| `Scenario.DefinitionIsNeverCoalesced` | internal/domain/scenario/slot.go:6-20 | no piece of a definition of slot 2 to 8 is a pure block |
| `Scenario.ScenarioPortal.PutScenario` | internal/handlers/scenarios.go:92-127 | succeeds iff there are values, all valid, for slot 2..8; then the two pieces are queued, the cache holds and the slot shows every given value and "0" elsewhere; else nothing changes |
| `Scenario.WriteIsKept` | internal/handlers/scenarios.go:126-127 | whatever the cache held, after a write it stands for every given value, "0" at the other indexes of the slot, and what it stood for elsewhere |
| `Scenario.ScenarioPortal.ScenarioDetail` | internal/handlers/scenarios.go:227-246 | exactly the cached indexes of the slot in increasing order with their cached values |
| `Scenario.DefinitionReadsBack` | internal/handlers/scenarios.go:97-127 | a written definition reads back as the 41 entries of the slot, each given value at its index and "0" elsewhere, whatever the cache held |
| `Scenario.OtherSlotsUntouched` | internal/handlers/scenarios.go:126-127 | every other slot reads as before |
| `RememberSessions.SessionStore.Create` | internal/data/remember_session_store.go:32-59 | appends the session and revokes exactly the active sessions of the account that have 10 or more active ones newer by (created_at, id) |
| `RememberSessions.CreationKeepsNewest` | internal/data/remember_session_store.go:48-57 | an active session survives a creation iff fewer than 10 active ones are newer; the new one always does |
| `RememberSessions.AtMostTenUsable` | internal/data/remember_session_store.go:29-59 | over runs with a forward clock the set of usable sessions of an account never has more than 10 elements |
| `RememberSessions.RevokedStaysRevoked` | internal/data/remember_session_store.go:75-88 | no run brings a revoked session back or moves an end date |
| `RememberSessions.SessionsFollowPasswords` | internal/data/remember_session_store.go:13-19 | over every run an unrevoked session was opened after its owner's last password write |
| `ResetTokens.TokenStore.Issue` | internal/data/password_reset_store.go:59-77 | undisturbed: the new link is stored for 3,600,000 ms and is the only unused and unretired one of its account; other accounts lose only rows older than 30 days |
| `ResetTokens.TokenStore.Consume` | internal/data/password_reset_store.go:127-151 | a matching token is consumed, its account has no outstanding link left and other tokens stay; no match changes nothing |
| `ResetTokens.ConsumeMeans` | internal/data/password_reset_store.go:127-151 | field by field: a match needs an unused, unretired token before its end, with distinct digests any such token matches, it alone is marked consumed and the unused others of its account are retired |
| `ResetTokens.TokensLiveAnHour` | internal/data/password_reset_store.go:69-72 | over every run a stored token ends 60 minutes after it was made |
| `ResetTokens.TokensAreSingleUse` | internal/data/password_reset_store.go:127-145 | over every run at most one consuming step matches a token, and a stored one is marked consumed exactly when one did |
| `ResetTokens.OneLinkIff` | internal/data/password_reset_store.go:64-72 | over every run of the separate statements an account never has two outstanding links iff no link of it is stored while another is outstanding |
| `ResetTokens.WritesApartOneLink` | internal/data/password_reset_store.go:64-72 | so it never has two when no link is stored between the two writes of another of its requests |
| `ResetTokens.NoneAfterReset` | internal/data/password_reset_store.go:147-151 | right after a completed reset the account has no outstanding link |
| `ResetTokens.PurgeSparesUsable` | internal/data/password_reset_store.go:164-170 | the purge deletes no unused, unretired, unexpired token in any reachable table |
| `ResetTokens.QuotaIff` | internal/identity/forgot_password.go:103-111 | over every run at most 3 self-service links in any hour iff each was stored while fewer than 3 had been in the last hour |
| `ResetTokens.RequestsApartWithinQuota` | internal/identity/forgot_password.go:103-111 | so the quota holds when no self-service link is stored between the count and the link of another request, with other issues and purges mixed in |
| `ResetRaces.RaceBreaksBoth` | internal/identity/forgot_password.go:103-113 | any number of overlapping requests with distinct digests all leave a usable link within one hour: two break the single link, four the quota |
| `ResetRaces.LiveAccountRaces` | internal/data/password_reset_store.go:59-77 | that race is a run of the whole system for a live account |
| `Identity.IdentityService.UpdateUserRow` | internal/data/user_store.go:94-101 | names only for an empty hash, else names and password with all sessions revoked |
| `Identity.IdentityService.WritePasswordHash` | internal/data/user_store.go:103-108 | only the password of the account changes, and all its sessions end |
| `Identity.IdentityService.WriteTemporaryPassword` | internal/data/user_store.go:159-174 | the account, and no other, gets the hash, the forced change at this instant, the expiry and the issuer together, and all its sessions end |
| `Identity.IdentityService.LiftPasswordChange` | internal/data/user_store.go:176-190 | the account, and no other, gets the hash and loses the forced change, its expiry and its issuer together, and all its sessions end |
| `Identity.IdentityService.VerifyLogin` | internal/identity/handlers.go:148-176 | the reading half of a login: goes on iff the account exists and is not forbidden, and keeps the password it read |
| `Identity.IdentityService.IssueRememberSession` | internal/identity/remember.go:18-35 | the writing half: a session of the login and this digest that ends 2,592,000,000 ms after now, refused only if the account is gone |
| `Identity.IdentityService.RememberRefresh` | internal/identity/remember.go:57-100 | succeeds only on an unrevoked session of this digest before its end, of an account that is not forbidden; fails only if there is none with the digest or one of them lacks that; only the last use changes |
| `Identity.IdentityService.SignOut` | internal/identity/remember.go:108-131 | every session of this digest is revoked, and no other row changes |
| `Identity.IdentityService.IssueResetIfEligible` | internal/identity/forgot_password.go:84-119 | undisturbed: issues iff the account exists, is not forbidden and has fewer than 3 links created in the last 3,600,000 ms; the link then is its only unused and unretired one |
| `Identity.IssueIsFourSteps` | internal/data/password_reset_store.go:59-77 | an undisturbed request is its four steps in a row |
| `Identity.IdentityService.StartReset` | internal/identity/password_reset.go:88-133 | goes on only with an acceptable password and a stored, unused, unretired, unexpired token of an account that is not forbidden, and with distinct digests always then; a forbidden account loses its links |
| `Identity.IdentityService.ConsumeAndSetPassword` | internal/data/password_reset_store.go:116-162 | with a stored, unused, unretired, unexpired token of the digest its account gets the password and loses its links and sessions in one step; else nothing changes |
| `Identity.RunProjects` | internal/data/user_store.go:117-131 | the session and token tables of any run of events are the runs of the steps above |
| `Identity.PasswordChangeRevokes` | internal/data/user_store.go:117-131 | no event replaces a password without revoking the account's sessions in the same step |
| `Identity.NoSessionSurvivesPasswordChange` | internal/data/remember_session_store.go:13-19 | a session that existed when a password was replaced, by any path, is revoked ever after |
| `LoginRuns.SessionsMatchIff` | internal/data/user_store.go:110-113 | at every point of a run each unrevoked session was opened with the password its account has then, iff every login that stored a session found the password it had read |
| `LoginRuns.LoginsApartFresh` | internal/identity/handlers.go:148-192 | so that holds when no password write of the account comes between what a login reads and its session |
| `LoginRuns.StaleLogin` | internal/identity/handlers.go:148-192 | a login overlapped by a password change whose session is usable afterwards |
| `Identity.RevokedIsNeverUsable` | internal/domain/remember_session.go:18-22 | a session revoked in a run is never usable later, at any instant |
| `Identity.AtMostTenSessions` | internal/data/remember_session_store.go:29-59 | the set of usable sessions of an account has at most 10 elements at every instant of every run of events |
| `Identity.RefreshMeans` | internal/identity/remember.go:57-100 | a refresh succeeds only less than 30 days after creation, unrevoked, with no later password write, for a live account |
| `ResetRuns.OwnersExist` | internal/data/password_reset_store.go:30-46 | over every run a stored token belongs to an account that exists |
| `ResetRuns.ResetMeans` | internal/data/password_reset_store.go:111-162 | after any run a completed reset had a token created less than 3,600,000 ms before, unused and unretired, sets exactly the password of its owner, and leaves the owner no link and no session |
| `ResetRuns.FreshLinkResets` | internal/identity/password_reset.go:88-133 | conversely after any run a stored link created less than 3,600,000 ms before, unused and unretired, of an account that is not forbidden lets a reset with an acceptable password go on and set it |
| `ResetRuns.ConsumedIffReset` | internal/data/password_reset_store.go:111-162 | over every run a stored token is marked consumed iff a reset by it went through |
| `ResetRuns.OneResetPerToken` | internal/data/password_reset_store.go:111-115 | however requests interleave between read and consume, one token changes a password at most once |
| `ResetRuns.AtMostOneLink` | internal/data/password_reset_store.go:64-72 | at every point of any run of events no two stored links of an account are both unused and unretired, if the writes of its requests do not overlap |
| `ResetRuns.SelfServiceQuota` | internal/identity/forgot_password.go:22-26 | at most 3 self-service links in any hour of any run of events, if the account's self-service requests do not overlap |
| `LightNames.AcceptedNameIsStable` | internal/domain/lights_names.go:81-97 | an accepted name is what was sent without the blanks around it, printable, 1 to 40 characters, and accepted again unchanged |
| `LightNames.NormalizeMeans` | internal/domain/lights_names.go:81-97 | a text takes the name away iff it is blank, and gives a name iff it is blanks, that name, blanks, with the name trimmed and acceptable |
| `LightNames.OfferMeans` | internal/handlers/light_names.go:171-198 | an entry is usable iff its light is known, its version positive, its time readable and its name absent, blank or acceptable; it then stands for that version, that name, author "gateway" and its time, or now when more than 5 minutes ahead |
| `LightNames.TurnComparesStamps` | internal/domain/lights_names.go:114-125 | an offer replaces a stored row iff its (updated_at, version) is strictly later |
| `LightNames.LightNameStore.SetLightName` | internal/data/light_names_store.go:57-74 | a portal rename stores this name and author, the version after the stored one or 1, and the cloud time, for this light only |
| `LightNames.LightNameStore.SyncLightNames` | internal/handlers/light_names.go:155-211 | undisturbed: every light ends as `SyncMerges` says and is answered with its stored name, version and time; oversized bodies change nothing |
| `LightNames.SyncIsFirstLatest` | internal/handlers/light_names.go:170-209 | each light holds the first latest of its stored row and the usable clamped entries |
| `LightNames.SyncMerges` | internal/handlers/light_names.go:170-209 | a row a sync changes is what some entry of that light asks for, with a later stamp than before, and no usable entry of it has a later stamp than the row it ends with |
| `LightNames.SyncNeverGoesBack` | internal/handlers/light_names.go:170-209 | in an undisturbed sync stamps never decrease, and lights without usable entry are untouched |
| `LightNames.OrderMattersOnTiesOnly` | internal/handlers/light_names.go:170-209 | order and repetition of entries matter only when different entries for a light tie |
| `LightNames.SyncReachesFixedPoint` | internal/handlers/light_names.go:148-211 | an adopted answer sent back at any clock has every entry rejected and changes nothing |
| `LightNames.RowsStaySound` | internal/domain/lights_names.go:127-134 | over all renames and syncs rows have a known light, version at least 1, and at most 5 minutes of advance |
| `LightNameRaces.UndisturbedIsSync` | internal/handlers/light_names.go:170-209 | the statement-by-statement sync without renames is the sync above |
| `LightNameRaces.NoStampGoesBackIff` | internal/data/light_names_store.go:76-87 | over every interleaving of a sync with renames its writes take no stored stamp back iff none is written over a rename with a later stamp |
| `LightNameRaces.RenamesApartForward` | internal/data/light_names_store.go:76-87 | so none goes back when no light is renamed between the sync's read, or last write, and its write |
| `LightNameRaces.AnswerIsStoredIff` | internal/handlers/light_names.go:194-211 | the answer shows the stored row of a light iff no rename of it came after the sync read it or last wrote it |
| `LightNameRaces.RenameLost` | internal/data/light_names_store.go:76-87 | a rename at 100 overwritten by an entry of 50 |
| `RateLimit.RateLimiter.Allow` | internal/middleware/rate_limit.go:26-47 | grants iff fewer than `limit` times of this key alone ("unknown" for the empty key) are in the window, keeps exactly those and the grant, and touches no other key |
| `RateLimit.DecisionIsExact` | internal/middleware/rate_limit.go:26-47 | every call is decided as counting the full history of grants would |
| `RateLimit.RunInvariant` | internal/middleware/rate_limit.go:33-45 | pruned lists answer like the history and hold at most `limit` times per key |
| `RateLimit.HistoryIsGrants` | internal/middleware/rate_limit.go:26-47 | the history of a key counts exactly its granted calls of the run |
| `RateLimit.AtMostLimitPerWindow` | internal/middleware/rate_limit.go:25-47 | over every run the calls of a key granted in any closed window are at most `limit` |
| `SupportReports.Service.SubmitReport` | internal/support/service.go:151-179 | undisturbed: with fewer than `limit` reports of the account in the window it files the report, open with its issue if GitHub made one and else pending; otherwise it refuses with the oldest of them plus the window |
| `SupportReports.Service.SyncOnce` | internal/support/syncer.go:21-53 | a round retries each report of the due batch once, then refreshes each open report of the next batch whose issue can be read, and does nothing else |
| `SupportReports.Service.SendEach` | internal/support/syncer.go:30-34 | each report of the batch has one more attempt: open, with its issue and without payload when GitHub made one, else only dated; no other report changes |
| `SupportReports.Service.RefreshEach` | internal/support/syncer.go:39-51 | each listed report with a readable issue is open, resolved or closed as the issue is open, completed or neither, dated anew only when that changes; no other report changes |
| `SupportReports.RefreshStep` | internal/support/syncer.go:39-51 | whatever earlier turns wrote, a turn sets its own report to the status of its issue, and skips it when it has none or it cannot be read |
| `SupportReports.ListPending` | internal/data/support_report_store.go:117-127 | the first 50 reports past their backoff, oldest first, none skipped below the limit |
| `SupportReports.ListOpenToSync` | internal/data/support_report_store.go:129-138 | the 100 open and due reports read the longest ago, in that order: none is skipped for one read later |
| `SupportReports.QuotaIff` | internal/support/service.go:151-169 | over every run at most `limit` reports per account in any rolling window iff each was stored at an instant at which the quota would accept it |
| `SupportReports.QuotaHolds` | internal/support/service.go:151-169 | so the quota holds when no report of the account is stored between the count and the report of another of its submissions |
| `SupportReports.RetryAtIff` | internal/support/service.go:156-159 | the announced instant is exact iff fewer than `limit` of the counted reports are newer than the oldest |
| `SupportReports.RetryAtIsExact` | internal/support/service.go:156-159 | after any run whose submissions of the account do not overlap, it is accepted again exactly from the announced instant on |
| `SupportRaces.RaceBreaksQuota` | internal/support/service.go:151-169 | more than `limit` overlapping submissions are all stored, and at the announced instant the account is refused again |
| `SupportRuns.AttemptsIff` | internal/support/service.go:170-176 | over every run each report gets at most 10 attempts, backed off, and none after its issue was opened, iff every send finds its report due at that instant |
| `SupportRuns.RetriesBackOff` | internal/data/support_report_store.go:117-127 | then attempt k+1 comes at least 2^k - 1 minutes after the first, and only the last opens an issue |
| `SupportRuns.SendsApartFindDue` | internal/support/syncer.go:28-37 | and every send finds its report due when no other send of it comes between deciding it and making it: no retry between an insert and its own send |
| `SupportRuns.LateSendBreaksBackoff` | internal/support/service.go:170-176 | a submission whose own send comes after the syncer's: two attempts a millisecond apart, and two issues if GitHub accepts both |
| `SupportRuns.StatusesMoveForwardIff` | internal/data/support_report_store.go:94-104 | over every run statuses only move pending, open, then resolved or closed, iff no send opens an issue for a resolved or closed report |
| `SupportRuns.FinalIsFinalIff` | internal/data/support_report_store.go:94-148 | a resolved or closed report stays as it is through any further run iff no send of the run meets it |
| `SupportRuns.DueSendsMoveForward` | internal/data/support_report_store.go:117-127 | when every send finds its report due, statuses move forward and final reports stay |
| `SupportRuns.LateSendReopens` | internal/support/service.go:170-176 | a late send that reopens a resolved report |
| `SupportRuns.PayloadOnlyWhilePending` | internal/data/support_report_store.go:94-104 | over every run the payload is kept exactly while the report is pending |

## Left out

- Cabinets.MergeKeepsEffect: states the effect for numeric values only, because what a cabinet does with a non-numeric value is decided by the firmware; what the merge does with one is stated for all inputs by RawIsLastIntent, BitIsLastIntent and MergeAbsorbs.
- Coalescing.CoalescedKeepsEffect: likewise for merged actions; a single action is delivered unchanged and needs no condition.
- QueueRuns.QueueServesInOrder: takes a poll with its status updates as one step, and rows in creation order, because `created_at` of two rows is taken to differ.
- SupportReports.Service.SyncOnce: runs with a configured GitHub client and the advisory lock held; without either the source does nothing. Only one round runs at a time, so that a refresh finds its report open.
- SupportReports.Service.SubmitReport: starts from a validated form; field validation and the detection of sensitive text are not part of this model.
- Scenario.ScenarioPortal.PutScenario: takes the generated GUIDs as unused parameters, and its writes to queue and cache as one step.
- Light-name timestamps are parsed integers of milliseconds or missing; store errors in the middle of a sync are not modelled.
- Identity.IdentityService.VerifyLogin: the password comparison and the expiry of a temporary password are decided by the caller; only a login that matched is an event.
- Identity.IdentityService.StartReset: the length and reuse tests of the password are one parameter.
- ResetTokens.TokensAreSingleUse: a new link is taken to carry a digest never issued before. A purge may happen at any time, not only after an insert.
- Identity.IdentityService.RememberRefresh: its reads and its write of the last use are one step.
- LightNameRaces.NoStampGoesBackIff: one sync of a machine at a time, with any renames; two overlapping syncs are not modelled.
- Support reports of deleted accounts: reports are kept for ever in the model.
- HTTP decoding, routing, status codes, audit and log lines, JSON and SQL text.
- bcrypt, SHA-256, JWT, random generation, captcha, OAuth, mail, GitHub and geolocation calls.
- Scenario launch and preset restore, light timers, MAC addresses, gateway sessions, newsletter, inventory and sync profiles: one-branch functions or plain storage without a run-level property.
- Display names of the light catalogue and permission checks of the handlers.
