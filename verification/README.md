# aad-auth: the offline cache, verified

This project models the local cache of aad-auth and proves what it promises over whole runs. The
cache lets directory users log in while the machine is offline. It is shared by two programs: the
PAM module in Go and the NSS module in Rust.

* `Basics`, `Strings`: results, machine widths, shadow modes, the collation order, comma-separated member lists.
* `Durations`: days to nanoseconds in uint64 and int64, expiry and purge thresholds.
* `HomeDir`, `Uids`: home directory patterns, the name hash, the search for a free id.
* `Tables`, `Cache`, `Database`: the tables `passwd`, `groups`, `uid_gid` and `shadow`, the committed
  effect of each transaction, and an object that performs the transactions statement by statement.
* `Runs`: every run of logins, Go and Rust openings, attribute changes and discarded caches.
* `Queries`: the read queries of both programs.
* `Registry`, `OpenedCaches`: the reference-counted registry of open caches, as a protocol and as an object.
* `PasswdIteration`: getpwent over a cache.
* `CBuffers`, `NssRecords`: `struct group` and `struct passwd` packed into the caller's buffer, after
  the getgrnam and getpwnam pages of POSIX.1-2017, System Interfaces.
* `Opening`: what New does to the tables.
* `Aad`, `Pam`: the directory's answer and the PAM decision.
* `System`: executions of PAM attempts, other clients, teardown timers, other programs and recreated
  files together, for any number of cache directories.
* `IterationRuns`: getpwent interleaved with such executions.

Outside answers are parameters: the clock (nanoseconds since the epoch), the directory's answer, the
shadow access mode, the shadow group, failures of opening and purging. The password hash is ideal.
Names are taken as already lower-cased. Transactions are atomic, and a login is two of them.

Main results:

* `Runs.OfflineLoginIff`, `System.OfflineSuccessIff`: at any point of any execution, for any configured
  days, offline login succeeds exactly when the log of the files which the cache holds has the user's
  latest refresh, with that password, not purged since, not expired, and spared by the purge of the
  opening.
* `System.OfflineSuccessHasOrigin`: whoever is let in offline used the password of an online login that
  an earlier step recorded in those files, at most the configured days ago (0 days: at any time).
* `System.OnlineSuccessIff`: when an allowed attempt succeeds, exactly, at any point of any execution.
* `Runs.LoginAfterRunIff`: when an online login is recorded, exactly, after every mixed run.
* `Queries.PurgesAnswerAlike`: the Go and the Rust purge give every query the same answer although
  their tables differ (`Tables.PurgesDifferIff`).
* `Runs.GoRunInvariant`, `Runs.MixedRunInvariant`: the strong table invariant of Go-only runs and the
  weak one of mixed runs.
* `Registry.QuiescentIff`, `Registry.TornDownForever`, `Registry.KeptCacheStaysOpen`: no use after
  close, no double close, no stale removal, in every interleaving; `System.RegistryReachable` shows that
  every execution is such an interleaving.
* `IterationRuns.InterleavedPass`: getpwent delivers the users of its first call once and in order,
  whatever happens in between.
* `NssRecords.GroupReadBack`, `NssRecords.PasswdReadBack`: what is packed is what a C caller reads.

Where the code does something else than its documentation suggests, the code is modelled and the exact
condition is proved:

* A user removed by the Rust purge cannot log in again, not even online, until the cache files are
  discarded: the leftover group blocks the name, and only an NSS purge leaves one (`Runs.LoginAfterRunIff`,
  `Runs.LeftoverIff`, `Runs.RustPurgeLocksOut`). After a Go purge the user can (`Runs.GoRunAllowsLogin`).
* Discarded files stay in use through a cache that was opened before: an offline login is still accepted
  and an online one is recorded there only, until that cache is torn down (`System.StaleGenerationIff`,
  `System.DiscardedStillAccepted`, `System.NewFilesNeedNewLogin`).
* From 53376 to 106751 configured days the purge duration wraps to a negative number, so opening the
  cache removes everybody, and the attempt that opened it accepts only a refresh dated in the future
  (`Durations.GoPurgeSafeUpToHalf`, `Pam.WrappedOpeningIff`).
* From 106752 to 213503 days the offline period itself wraps to a negative number, so a login is refused
  offline from its own instant on (`Durations.ExpiryWrapsNegative`, `Cache.LoginRefused`).
* The NSS purge of 180 days removes users PAM would still accept when the configured days are 0 or
  above 180 (`Runs.NssKeepsVerdictDays`, `Runs.NssPurgeRefuses`).
* A New that connects and then fails leaves its connection open for ever (`Registry.QuiescentIff`,
  `Registry.LeakingRun`).
* With every 32-bit id taken, creating a user never ends unless the name itself is met
  (`Uids.NeverEndsIff`).
* A login with a comma is split into several group members (`Queries.SingleMemberIff`).
* `%l` is the first byte of the name, which is its first character only for ASCII and U+00C3
  (`HomeDir.FirstLetterIff`); it panics on an empty name.
* Rearranged names share their starting id unless a running product hits 2^32-1 (`Uids.RearrangedStartIff`).

## Model

| member | source | states |
|---|---|---|
| Durations.ExpiryExactIff | internal/cache/cache.go:318-323 | the offline period is exactly d days if and only if d is at most 106751 |
| Durations.PurgeExactIff | internal/cache/cache.go:210-220 | the purge duration is exactly 2d days if and only if d is at most 53375 |
| Durations.PurgeWrapsNegative | internal/cache/cache.go:215-217 | from 53376 to 106751 days the duration is a negative int64 |
| Durations.GoPurgeSafeIff | internal/cache/cache.go:210-220 | for any positive d, opening spares everybody the offline check accepts iff the wrapped offline period exceeds the wrapped purge period by less than one second |
| Durations.GoPurgeSafeUpToHalf | internal/cache/cachedb.go:214-236 | for d up to 106751, opening with d never removes an unexpired user iff d is at most 53375 |
| Durations.WrappedPurgeRemovesFreshUser | internal/cache/cache.go:215-220 | in the wrapped range even a user refreshed at that instant is removed |
| Durations.NegativeAndZeroDays | internal/cache/cache.go:210-223 | d < 0 purges like 90 days and nobody passes; d = 0 purges and expires nothing |
| Durations.ThresholdsInSeconds | internal/cache/cachedb.go:223-224 | the purge thresholds of both programs in plain numbers |
| Durations.NssPurgeSafeIff | nss/src/cache/mod.rs:686-712 | when the fixed NSS purge spares everybody PAM accepts, for every d |
| Durations.NssPurgeSafeDays | nss/src/cache/mod.rs:20-21 | for d up to 106751 this holds exactly for d < 0 or 1 to 180 |
| Durations.UnexpiredImpliesWithinDays | internal/cache/cache.go:318-323 | for every d, accepted means at most d days after the unrounded refresh, or d = 0: no wrap lengthens the period |
| Durations.ExpiryWrapsNegative | internal/cache/cache.go:318-323 | from 106752 to 213503 days the offline period is negative and only a login dated in the future is accepted |
| Durations.FreshAcceptedIff | internal/cache/cache.go:318-323 | a login is always accepted at its own instant iff d = 0, or d > 0 and the wrapped period is not below one second less a nanosecond |
| HomeDir.ParseHomeDir | internal/cache/cache.go:445-475 | the one-flag loop computes the token-based meaning of every pattern |
| HomeDir.FailsIff | internal/cache/cache.go:479-495 | failure iff an unescaped % is followed by something other than f, U, l, u, d or % (or by l with an empty name) |
| HomeDir.DistributesIff | internal/cache/cache.go:445-475 | expansion distributes over concatenation for every right part iff the left part fails or has no dangling % |
| HomeDir.ExpandDangling | internal/cache/cache.go:454-460 | a dangling % applies to the first character of what follows |
| HomeDir.EscapeRoundTrip | internal/cache/cache.go:454-460 | doubling every % of any path and expanding gives the path back |
| HomeDir.ModifierMeanings | internal/cache/cache.go:479-495 | what each modifier stands for |
| HomeDir.UserAtDomainIff | internal/cache/cache.go:487-492 | %u@%d rebuilds the name iff it has a domain |
| HomeDir.LeadByteDecodes | internal/cache/cache.go:485-486 | beyond ASCII, %l is the lead byte of the encoded first character |
| HomeDir.FirstLetterIff | internal/cache/cache.go:485-486 | %l is the first character iff it is ASCII or U+00C3 |
| HomeDir.CutAt | internal/cache/cache.go:488 | the parts around the first @ |
| Uids.Start | internal/cache/cache.go:413-419 | the starting id lies between 100000 and 2^32-2 |
| Uids.ComputeStart | internal/cache/cache.go:413-419 | the hash loop computes that starting id |
| Uids.HashClosedForm | internal/cache/cache.go:416-418 | the accumulator is the wrapped product, or 0 once 2^32-1 was hit |
| Uids.RearrangedStartIff | internal/cache/cache.go:413-419 | exactly when two rearrangements of a name share the starting id |
| Uids.RearrangedStart | internal/cache/cache.go:413-419 | they do when neither hits 2^32-1 |
| Uids.RearrangedStartsMayDiffer | internal/cache/cache.go:413-419 | two rearrangements with different starts |
| Uids.FirstFreeId | internal/cache/cache.go:421-431 | within the number of taken ids plus one probes, the result is the first id from the start that is free, or the name-clash error |
| Uids.NeverEndsIff | internal/cache/cache.go:421-431 | the search never ends iff every id is taken and none carries the name |
| Uids.StopsFor | internal/cache/cache.go:421-431 | it ends whenever an id is free, and for every user already present |
| Uids.UidAboveOffsetIff | internal/cache/cache.go:421-435 | the id is at least 100000 iff some id from the start upwards is free, or none below 100000 is |
| Uids.Probe | internal/cache/cache.go:421-431 | the probing loop terminates with that result |
| Uids.Generate | internal/cache/cache.go:408-436 | hash and probing together, whenever the search ends |
| Uids.AbsentNameGetsUid | internal/cache/passwddb.go:225-241 | with the strong invariant an absent name never meets the already-exists error |
| Uids.UnknownNameGetsUid | internal/cache/cache.go:408-436 | in any state, a name carried by no user and no group gets an unused id |
| Uids.UnionAnswer | internal/cache/passwddb.go:225-241 | the first row of the sorted UNION carries a name iff the user or the group under that id carries it, and there is none iff the id is free |
| Tables.InsertedInvariant | internal/cache/cachedb.go:136-174 | insertion keeps both invariants |
| Tables.RefreshedInvariant | internal/cache/cachedb.go:189-212 | refresh keeps both invariants |
| Tables.GoPurgedInvariant | internal/cache/cachedb.go:214-243 | the Go purge keeps both invariants |
| Tables.RustPurgedInvariant | nss/src/cache/mod.rs:686-721 | the Rust purge keeps the weak invariant |
| Tables.AttributeSetInvariant | internal/cache/cachedb.go:251-278 | attribute changes keep both invariants |
| Tables.WriteThenRead | internal/cache/cachedb.go:251-304 | an attribute write changes that column of that login only |
| Tables.GoPurgedGroups | internal/cache/cachedb.go:229-240 | the Go purge removes exactly the groups of the removed users |
| Tables.RustPurgedGroups | nss/src/cache/mod.rs:713-717 | the Rust purge removes no group |
| Tables.PurgeSurvivors | internal/cache/cachedb.go:223-240 | survivors are those last seen at or after the threshold, with unchanged rows |
| Tables.GoPurgeTwice | internal/cache/cachedb.go:214-243 | two purges are one at the later threshold, on all tables of any state |
| Tables.RustPurgeTwice | nss/src/cache/mod.rs:686-721 | the same for the Rust purge |
| Tables.PurgesDifferIff | nss/src/cache/mod.rs:699-717 | the two purges leave equal tables iff nobody is removed |
| Database.Database.InitDB | internal/cache/cachedb.go:61-99 | a missing file makes root recreate everything empty, and is an error for others |
| Database.Database.InsertUser | internal/cache/cachedb.go:136-174 | four inserts with the column defaults of the schema, all or nothing, failing iff some constraint is violated |
| Database.Database.UpdateOnlineAuthAndPassword | internal/cache/cachedb.go:189-212 | time and hash of that uid are replaced, in writable mode only |
| Database.Database.CleanUpDB | internal/cache/cachedb.go:214-243 | the four deletions have the effect of the Go purge |
| Database.Database.CleanupExpiredEntries | nss/src/cache/mod.rs:686-721 | the three deletions have the effect of the Rust purge |
| Database.Database.UpdateUserAttribute | internal/cache/cachedb.go:251-278 | only "gecos", "home" and "shell" are accepted; the column of that name changes in the rows of that login and nothing else does; which of the two errors |
| Database.Database.GetUserByName | internal/cache/passwddb.go:70-101 | the user's row, or none iff the login is absent |
| Database.Database.CanAuthenticate | internal/cache/cache.go:298-330 | the offline check on the current tables |
| Database.Database.ListPasswd | internal/cache/passwddb.go:173-176 | the listing in login order |
| Database.Database.Update | internal/cache/cache.go:333-369 | a login has exactly the effect and the result of its two transactions, and keeps the weak invariant |
| Cache.FindUserIff | internal/cache/passwddb.go:70-101 | the lookup finds a row iff the login is present, and at most one |
| Cache.DecimalRoundTrip | internal/cache/cache.go:344 | the text of the id denotes the id, without a leading zero |
| Cache.LoginProfile | internal/cache/cache.go:333-369 | all columns, the hash and the group of a new user, with a free id; a known user keeps its profile |
| Cache.HalfCreatedRow | internal/cache/cachedb.go:149-170 | what a first login leaves that stops half-way: the same rows, the time of the year 1, no hash |
| Cache.LoginErrors | internal/cache/cache.go:333-369 | where a login of a known and of an unknown user stops |
| Cache.LoginKeepsOthers | internal/cache/cache.go:333-369 | a login touches no other user |
| Cache.RefusalIff | internal/cache/cache.go:303-330 | every refusal and exactly when it is reported: access mode, disabled, absent, expired, password |
| Cache.LeftoverBlocksLogin | internal/cache/passwddb.go:235-238 | the name of a leftover group can neither be found nor created |
| Cache.LoginIff | internal/cache/cache.go:333-369 | in every state with the weak invariant a login is recorded iff shadow is writable, it is not cut short, and the user is known, or no leftover group has the name, an id is free and the pattern expands |
| Cache.CreateIff | internal/cache/cache.go:341-355 | the same for the creation of the user |
| Cache.LoginVerdictIff | internal/cache/cache.go:298-369 | after a recorded login its password is accepted offline iff it is unexpired, for all days and instants |
| Cache.LoginSucceeds | internal/cache/cache.go:298-369 | so it is at its own instant for 0 to 106751 days |
| Cache.LoginRefused | internal/cache/cache.go:318-323 | and never from its own instant on for 106752 to 213503 days, reported as expired |
| Cache.PurgedVerdict | internal/cache/cache.go:298-330 | either purge changes the offline verdict exactly for the users it removes |
| Runs.MixedRunInvariant | internal/cache/cachedb.go:136-278 | every mixed run keeps the weak invariant |
| Runs.GoRunInvariant | internal/cache/cachedb.go:61-278 | every Go-only run keeps the strong invariant, across discarding |
| Runs.OpeningEvents | internal/cache/cache.go:210-220 | who survives an opening by Go and by Rust, in modes, days and seconds, and when the tables start empty |
| Runs.AttributeEvent | internal/cache/cachedb.go:251-278 | an attribute event writes one column of one login |
| Runs.GoRunGivesUid | internal/cache/passwddb.go:225-241 | after every Go-only run an absent user, also a purged one, gets an unused id |
| Runs.GoRunAllowsLogin | internal/cache/cache.go:333-369 | after every Go-only run a complete writable login succeeds, with a sound pattern or for a known user |
| Runs.StandingIff | internal/cache/cachedb.go:188-243 | the fold over the log and the direct reading of the log agree |
| Runs.OfflineLoginIff | internal/cache/cache.go:298-369 | after every mixed run the offline check accepts exactly a counting, unexpired refresh with that password |
| Runs.OfflineLoginIsRecent | internal/cache/cache.go:298-330 | accepted implies, for all days, d >= 0 and a refresh with that password at most d days ago, or d = 0 |
| Runs.HalfCreatedNeverPasses | internal/cache/cache.go:349-368 | a user whose first login stopped half-way passes with no password, then and after any continuation without a completed login of that name |
| Runs.NssKeepsVerdictIff | nss/src/cache/mod.rs:686-712 | on all tables with the weak invariant and for all days, the NSS purge keeps the offline verdict iff the two durations allow it |
| Runs.NssKeepsVerdictDays | nss/src/cache/mod.rs:20-21 | for days up to 106751: iff d < 0 or 1 to 180 |
| Runs.NssPurgeRefuses | nss/src/cache/mod.rs:686-721 | a login followed by an NSS opening is a run that refuses a user accepted at that instant, whenever the durations disagree |
| Runs.LeftoverIff | nss/src/cache/mod.rs:699-717 | after every run a leftover group of a name exists iff an NSS opening removed that user and the files were kept since |
| Runs.LoginAfterRunIff | internal/cache/cache.go:333-369 | after every mixed run, exactly when an online login is recorded |
| Runs.RustPurgeLeavesGroup | nss/src/cache/mod.rs:699-717 | a user removed by the Rust purge leaves its group |
| Runs.LeftoverPersistsRun | nss/src/cache/mod.rs:713-717 | a leftover id is never given to a live user and stays until the cache is discarded |
| Runs.RustPurgeLocksOut | internal/cache/passwddb.go:225-241 | after a Rust purge every later login of that user fails and changes nothing, short of a discard |
| Runs.ReachablePurgesAnswerAlike | nss/src/cache/mod.rs:430-602 | after every mixed run both purges answer every query alike |
| Runs.ReachableGroups | internal/cache/groupdb.go:23-107 | after every mixed run a group is one record by gid, by name and listed, with its user as only member iff the login has no comma |
| Strings.OrderedAscends | internal/cache/passwddb.go:173-176 | ORDER BY login lists in ascending order |
| Strings.BeforeIff | internal/cache/passwddb.go:173-176 | one name is listed before another iff, where they first differ, it ends or has the smaller character |
| Strings.AscendingIsOrdered | internal/cache/passwddb.go:173-176 | the ascending order of given names is unique |
| Strings.SplitJoin | internal/cache/groupdb.go:127-138 | splitting a joined list of comma-free names gives it back |
| Strings.JoinSplit | nss/src/cache/mod.rs:655-658 | joining the pieces gives the text back, and pieces hold no comma |
| Strings.SplitSingletonIff | internal/cache/groupdb.go:135 | a name comes back alone iff it holds no comma |
| Queries.RowsToGroupEntries | nss/src/cache/mod.rs:650-669 | one entry per row, with the members the text joins |
| Queries.ExpectOneRowIff | nss/src/cache/mod.rs:672-683 | exactly one row is an answer; none and several are told apart |
| Queries.GoAndRustAgree | nss/src/cache/mod.rs:672-683 | in reachable states first-row and exactly-one-row reading agree for every query by key |
| Queries.PurgesAnswerAlike | nss/src/cache/mod.rs:430-602 | from every state with the weak invariant both purges answer every query alike |
| Queries.PasswdAnswers | nss/src/cache/mod.rs:432-461 | by uid and by name a live user is one entry with the columns of its row |
| Queries.SingleMemberIff | internal/cache/groupdb.go:23-71 | a group's only member is its user iff the login has no comma |
| Queries.GroupAnswers | nss/src/cache/mod.rs:479-549 | by gid, by name and listed, a group is the same record |
| Queries.LeftoverInvisible | nss/src/cache/mod.rs:479-549 | a leftover group appears in no answer |
| Queries.AllPasswdExact | nss/src/cache/mod.rs:464-475 | the listing shows every user once, in login order |
| Queries.AllGroupsExact | internal/cache/groupdb.go:80-107 | the group listing shows the group of every user exactly once, in name order |
| Queries.AllShadowExact | nss/src/cache/mod.rs:579-602 | the shadow listing shows the hash of every user exactly once, in login order |
| Queries.OrderByLogin | internal/cache/passwddb.go:173-176 | sorting by login gives that listing |
| Registry.NewRegistersRequest | internal/cache/cache.go:175-238 | the entry and the signature are the requested options, although the shadow lookup changed them midway |
| Registry.NewMode | internal/cache/cache.go:203-232 | a shared cache keeps the mode it was opened with, a new one gets the mode initDB reports |
| Registry.NewErrorIff | internal/cache/cache.go:190-220 | which error New reports, and exactly when |
| Registry.NewThenClose | internal/cache/cache.go:149-254 | acquiring and releasing leaves every earlier reference count as it was |
| Registry.StepInvariant | internal/cache/cache.go:149-294 | every step keeps the registry invariant |
| Registry.RunInvariant | internal/cache/cache.go:149-294 | so does every interleaving |
| Registry.EnabledIff | internal/cache/cache.go:175-294 | in sound states New is always possible, Close for every open handle and a timer whenever one is pending |
| Registry.ReachableInvariant | internal/cache/cache.go:175-294 | the state of every interleaving is sound |
| Registry.EntriesCountHandles | internal/cache/cache.go:181-187 | a registered cache carries its key and counts its open handles |
| Registry.OpenHandleOpenConnection | internal/cache/cache.go:245-294 | no connection is closed while a handle is open, none is closed twice |
| Registry.KeptCacheStaysOpen | internal/cache/cache.go:245-294 | while somebody keeps a handle, the cache stays open and is the one New returns |
| Registry.StaleTimerHarmless | internal/cache/cache.go:264-271 | a timer of a cache that is gone or in use only disappears |
| Registry.TeardownIsPrecise | internal/cache/cache.go:285-290 | a teardown removes its own entry and closes its own connection only |
| Registry.TornDownForever | internal/cache/cache.go:289-290 | a torn down cache is never returned, reopened or closed again |
| Registry.AbandonedIff | internal/cache/cache.go:203-220 | connections are dropped unclosed exactly by a New under options not yet open that connects and then cannot create the tables of new files, attach shadow or purge a writable cache |
| Registry.LeakingRun | internal/cache/cache.go:203-220 | one such New leaves nothing to close or fire and an open connection |
| Registry.QuiescentIff | internal/cache/cache.go:248-291 | with no handle and no timer left the registry is empty, and every connection was closed once iff no New dropped one |
| Registry.ShutdownPossible | internal/cache/cache.go:245-294 | from every reachable state closing the handles and firing the timers empties the registry |
| OpenedCaches.OpenedCaches.New | internal/cache/cache.go:175-241 | shares the registered cache or opens one, as the protocol step does |
| OpenedCaches.OpenedCaches.Close | internal/cache/cache.go:245-256 | gives one handle back, the last one starts a timer |
| OpenedCaches.OpenedCaches.TimerFire | internal/cache/cache.go:256-291 | tears down only an unused cache |
| PasswdIteration.OnePass | internal/cache/passwddb.go:164-191 | a pass delivers the listing of its first call once, in order, then not-found |
| PasswdIteration.PassesRepeat | internal/cache/passwddb.go:182-188 | on unchanged tables the passes repeat |
| PasswdIteration.PassDeliversUsers | internal/nss/passwd/passwd.go:129-152 | a pass over a reachable state delivers every user once in login order |
| PasswdIteration.PasswdIteration.Start | internal/nss/passwd/passwd.go:102-113 | a second Start fails and changes nothing; a first one begins without cursor, on the tables as the opening leaves them |
| PasswdIteration.PasswdIteration.NextEntry | internal/nss/passwd/passwd.go:129-152 | the next row of the snapshot, which the first call of a pass reads from the tables, with the connection open |
| PasswdIteration.PasswdIteration.End | internal/nss/passwd/passwd.go:116-125 | drops the cursor and gives the handle back |
| IterationRuns.IteratedConnectionOpen | internal/nss/passwd/passwd.go:98-152 | at every point of every execution the connection being iterated is open |
| IterationRuns.IteratedTables | internal/cache/passwddb.go:172-180 | the tables read are those New leads to under the options of the iterated cache |
| IterationRuns.StartAndEnd | internal/nss/passwd/passwd.go:98-125 | a second Start changes nothing, End gives the handle back, and the next Start begins before the first row |
| IterationRuns.AnswersOfListings | internal/cache/passwddb.go:164-191 | the answers depend on the listings at the calls only, not on what others do in between |
| IterationRuns.InterleavedPass | internal/nss/passwd/passwd.go:98-152 | in every interleaving a pass delivers the users of its first call once, in login order, then not-found |
| CBuffers.ReadPacked | internal/nss/passwd/util_c.go:41-59 | every packed string is read back from its offset |
| CBuffers.UpToNulIff | internal/nss/passwd/util_c.go:41-59 | a string comes back whole iff it holds no NUL |
| CBuffers.PointerOrder | internal/nss/group/util_c.go:68-78 | pointers are stored least significant byte first |
| CBuffers.ReadWholeTable | internal/nss/group/util_c.go:68-78 | a pointer table leads to the strings in order and ends with null |
| NssRecords.ToCpasswd | internal/nss/passwd/util_c.go:27-66 | ERANGE iff the buffer is shorter than the five strings and terminators; otherwise exactly the packed strings are written and the rest of the buffer is untouched |
| NssRecords.PasswdReadBack | internal/nss/passwd/util_c.go:27-66 | reading through the structure gives the record |
| NssRecords.PasswdExactIff | internal/nss/passwd/util_c.go:27-66 | unchanged iff no NUL and 32-bit ids |
| NssRecords.ComputeSize | internal/nss/group/util_c.go:34-41 | the size computed is the number of bytes written |
| NssRecords.ToCgroup | internal/nss/group/util_c.go:31-84 | ERANGE iff the buffer is shorter than strings, terminators and pointer table; otherwise exactly the record's bytes are written and the rest is untouched |
| NssRecords.GroupReadBack | internal/nss/group/util_c.go:31-84 | reading gives name, password and members in order up to the null entry |
| NssRecords.GroupExactIff | internal/nss/group/util_c.go:31-84 | unchanged iff no NUL and a 32-bit gid |
| Aad.ByCodesIff | internal/aad/aad.go:78-110 | codes allow iff 50076 occurs and none of 50126, 50034, 65001 and 7000218 before it |
| Aad.ClassifyIff | internal/aad/aad.go:56-119 | allowed iff a token came or the codes say so, in the same numbers; no network iff no client or a non-response error |
| Pam.SuccessIff | internal/pam/pam.go:56-116 | success iff a login allowed by a token or by those codes was recorded, or there is no network and the offline check passes |
| Pam.FailureIff | internal/pam/pam.go:63-92 | a system error iff there is no configuration, or no cache for an attempt that is not denied; a denied attempt changes nothing |
| Pam.OnlineProfile | internal/pam/pam.go:109-115 | a recorded login leaves a new user with the configured shell and home, a known user with its profile, and either with that hash and time |
| Pam.OptionsAreIndependent | internal/cache/cache.go:72-133 | each option sets its own field only |
| Pam.DefaultsHold | internal/cache/cache.go:154-168 | the options of an attempt without any |
| Pam.HandlesBalanced | internal/pam/pam.go:87-92 | every path leaves the reference counts as it found them |
| Pam.OpeningKeepsVerdict | internal/cache/cache.go:210-220 | for 1 to 53375 days the purge at opening never changes the offline verdict of that instant |
| Pam.DaysPrecedence | internal/pam/pam.go:67-76 | the caller's last days count, else the configured ones, else 90 |
| Pam.AcquiredVerdictIff | internal/cache/cache.go:210-223 | the offline verdict on the tables as the opening leaves them, for all modes and days |
| Pam.OfflineAttemptIff | internal/pam/pam.go:94-107 | after every mixed run, with any caches open and any days, an attempt without network succeeds exactly for a counting, unexpired refresh that the purge of the opening spares |
| Pam.SafeAttemptIff | internal/pam/pam.go:94-107 | up to 53375 days, or through an open cache, the purge plays no part |
| Pam.WrappedOpeningIff | internal/cache/cache.go:210-220 | from 53376 to 106751 days, an attempt that opens a writable cache itself accepts exactly the refreshes at or after a threshold that lies in the future |
| Pam.AttemptReachable | internal/pam/pam.go:87-92 | to the registry an attempt is a New and a Close of an interleaving |
| Opening.OpeningPurges | internal/cache/cache.go:210-220 | an opening purges iff it is unshared, in mode 2 and not for 0 days; it keeps exactly the users seen within twice the days, or 180 days when negative |
| Opening.HalfCreatedPurged | internal/cache/cachedb.go:214-243 | a half-created user goes with the next purge |
| Opening.Acquire | internal/cache/cache.go:175-241 | New with that purge of the tables |
| Pam.EndsFor | internal/cache/cache.go:421-431 | an attempt ends when an id is free or the user is known |
| Pam.Authenticate | internal/pam/pam.go:56-116 | the effects on registry and tables, with all handles given back, for every attempt that ends |
| System.AttemptIsRun | internal/pam/pam.go:56-116 | a PAM attempt is a short run of the cache, and adds a refresh to the log iff it succeeds online |
| System.AcquireIsRun | internal/cache/cache.go:175-241 | to the tables, New is its opening |
| System.PossibleSteps | internal/cache/cache.go:175-294 | which steps are always possible |
| System.StepRegistry | internal/cache/cache.go:175-294 | what each step does to the registry |
| System.StepTables | internal/cache/cachedb.go:61-278 | what each step does to the tables of each generation |
| System.ModeHasOrigin | internal/cache/cache.go:203-232 | the mode of a cache is the one reported to the step that opened it |
| System.AttemptMode | internal/cache/cache.go:181-232 | an attempt works with the mode reported to it, or to the earlier step that opened the shared cache |
| System.RegistryReachable | internal/cache/cache.go:175-294 | every step takes the registry along one of its interleavings |
| System.EveryGenerationIsARun | internal/cache/cachedb.go:61-99 | in every execution the tables of each generation of the files are those of a run on fresh files |
| System.RefreshHasOrigin | internal/pam/pam.go:109-115 | every refresh in the log of a generation was committed there by one successful online step |
| System.OfflineSuccessIff | internal/pam/pam.go:94-107 | at any point of any execution and for any days an attempt without network succeeds exactly for a refresh that counts in the files its cache holds, is unexpired and spared by the opening |
| System.OnlineSuccessIff | internal/pam/pam.go:109-115 | at any point of any execution an allowed attempt that gets a cache succeeds iff shadow is writable, it is not cut short, and the user is known after the opening or can be created: no leftover group, a free id, a sound pattern |
| System.OfflineSuccessHasOrigin | internal/pam/pam.go:94-107 | offline success, for any days, goes back to an online login of that name and password recorded in those files, at most that many days earlier (0 days: any time) |
| System.StaleGenerationIff | internal/cache/cache.go:181-187 | after files are created again, New leads to the discarded ones iff the cache registered before under those options is registered still |
| System.NewFilesNeedNewLogin | internal/cache/cachedb.go:61-99 | otherwise offline success needs an online login made since the new files exist, at most the configured days ago |
| System.DiscardedStillAccepted | internal/cache/cache.go:181-187 | a login recorded before the discard is accepted through the cache left open although the current tables are empty |
| System.DiscardOutlivedFromStart | internal/cache/cachedb.go:61-99 | such an execution with the default options, from the beginning |

## Left out

- Uids.Generate: stated where the search ends, which is exactly when `Uids.CanStop` holds (`Uids.NeverEndsIff`); `Database.Update` inherits this, and it always holds for a known user. `Pam.Authenticate` needs it only of an allowed attempt, on the tables after its opening.
- Pam.Authenticate: works on one database object; connections that hold discarded files are modelled on values, in `System`.
- Queries.SingleMemberIff: the order in which group_concat visits several members is taken as login order; reachable groups have one member.
- Database.Database.GetUserByName: stated for tables with the weak invariant, which every run keeps, since otherwise the first of several rows is arbitrary.
- NssRecords.GroupReadBack: assumes a buffer below address 2^63 and not at null, and a little-endian machine; alignment of the pointer table is not modelled.
- File ownership and permissions, access probing, path handling: system calls; the shadow mode is an input.
- SQLite internals: connection pool, write-ahead log across two files, locking; one connection and atomic transactions.
- bcrypt and the MSAL client: an ideal hash and an oracle for the directory's answer.
- Configuration loading and its layering, aad-cli, moving home directories, scanning /proc, logging, translations, packaging.
- Shadow and group iterations, shadow buffers and the password-ageing columns, which are constant: the same shapes as the passwd ones.
- When a connection really opens its files: it is taken to hold them from New on. A New that creates missing files is a `System.Recreate` followed by the step itself, and different directory names are taken as different directories.
- Teardown of a database under a live cursor: a cursor exists only while its handle is held, when no teardown happens.
- The clock within one attempt: the purge of the opening, the offline check and the refresh share one instant, while the program reads the clock for each.
- How long a released cache lives: an older timer may tear it down early, so no minimum is claimed.
- Steps of other programs between the two transactions of one login.
- Invalid UTF-8 in names and patterns, and Unicode lower-casing.
