# OpenBlade core model

A Dafny model of the stateful and transforming cores of OpenBlade, an emulator of a tape
library's management API, with proofs about every run or every input.

| module | models |
|---|---|
| `OpenApiPruning` | restriction of the OpenAPI document to in-scope paths and the components they reach |
| `PathTemplates` | path templates compiled to an anchored pattern, and the in-scope search |
| `LoginLimiter` | the sliding-window login limiter and its Retry-After advice (section 10.2.3 of RFC 9110) |
| `SessionTable` | the session table: lazy purging, eviction above the cap, sliding or absolute expiry, the MFA flag |
| `AuthGate` | choosing a request's token, authenticating it, and confirming MFA |
| `CompatCapture` | the capture tool: the recursive scrub, the built case, the comparison |
| `HydratorShim` | the recall shim as interleaved atomic steps of one polling loop and many threads |
| `PoolIds`, `MediaPools` | media pools and the sync pass that makes them a partition |
| `CleaningCartridges` | greedy assignment of cleaning cartridges with generated fallbacks |
| `LatencyMetrics` | aggregates kept incrementally, against recomputation from the history |
| `AccessGroups` | hosts and groups, stored in both directions |
| `SerialMap` | the drive serial map parser and its printer |
| `SlotGeometry` | slot numbers and bay/row coordinates |
| `Text`, `Names`, `Decimal`, `JsonTree`, `Wrappers` | shared string operations, lists of names, decimals, JSON documents, `Option` and `Result` |

## How it is built

Code that updates state in place is a class whose methods are proved against functions or
relations on values, and the laws are lemmas about those. `SessionStore`, `Limiter`,
`LatencyRecorder` and `AccessControl` carry a ghost history of calls, so that their contracts
speak of whole runs. `SessionTable` has two machines over the same events: `Step`, which removes
expired sessions wherever the code purges, and `LedgerStep`, in which time removes nothing and a
session is dead once its deadline has come; `Refinement` says that their live sessions never
differ. `AuthGate` adds runs of requests: `Effects` lists the session calls that one request
makes, and the methods are proved to make exactly those. `HydratorShim` is a transition
relation: `RequestStep` (a client drops a request), `PollStep` and `ThreadStep`, one shared
access each, a thread being able to die at every access that can raise. A dead thread records
whether it had written its log line.

Integers are unbounded, as in Python. Clock readings and averages are real numbers. A session
function takes one clock reading per call and the clock never goes back.

## Where the code departs from what its names and comments suggest

- Python's `$` also matches before one final newline, so a compiled template accepts some paths
  that do not line up with it (`RootTakesNewline`). `MeaningExactlyWhen` gives the exact condition.
  The search's only caller (`openblade/api/main.py:334-339`) passes `request.url.path`, which
  Starlette takes from Python's `urlsplit`; that drops newlines, so no such path comes in over
  HTTP. Neither library is part of this model.
- `validate_mfa` selects its token twice, to authenticate and again to confirm
  (`openblade/api/routes_aml_auth.py:711`). When the cookie's session runs out in between, the
  code of the cookie's user confirms the bearer token's session (`LateRequestConfirmsAnother`).
  `ConfirmedExactly` gives the exact condition on the two readings of the clock, and
  `AcceptedAfterOwnCodeExactly` what follows for whole runs.
- `sanitize` is not idempotent on every tree. A bearer credential can leave a placeholder that the
  XML rule of the next pass takes for an opening tag, as in `Bearer x yy</token>`
  (`SecondPassCanChange`). `WalkIdempotentExactly` gives the exact condition, and
  `BuiltCaseScrubbedExactly` the same for a built case.
- `normalize_aml_path` is not idempotent on paths of two or more slashes and nothing else
  (`NormalizeIdempotentExactly`).
- Security schemes are kept whole but not followed, so a reference out of one may dangle after
  pruning (`SchemeReferenceCanBreak`). `ResolvesAfterPruning` says exactly what resolves.
- `assign_aml_media_to_pool` compares requested barcodes as given, while the sync that follows
  trims the stored ones. A media entry with an untrimmed or blank barcode therefore does not
  move as requested (`UntrimmedNotMoved`). `AssignMovesExactlyWhen` gives the exact condition on
  the request.
- A replayed capture can drift only through its content type (`ReplayDrift`, an exact condition).
- A hydration thread that dies leaves its path in flight for ever (`DeadPathStaysBlocked`), and a
  request for a name that is another request's temporary name can expose a half-written file
  (`SeparationNeeded`).
- With a timeout of zero or less, and no fault lifetime, a session ends as it is looked up, so a
  request that looks its session up twice is refused (`AloneExactly`).
- Two towers that both have slots and share a bay share coordinates (`SharedBayCollides`); an
  empty tower does no harm (`InjectiveExactlyWhen`).

## Model

| member | source | states |
|---|---|---|
| OpenApiPruning.CollectComponentRefs | openblade/api/main.py:458-471 | the set holds exactly the component references mentioned at some depth of the document, through objects and lists |
| OpenApiPruning.CollectReachable | openblade/api/main.py:479-493 | the worklist stops on every schema, cyclic ones included, and `seen` is then exactly the set of references that some chain of resolving `$ref`s joins to `paths` |
| OpenApiPruning.ReachableIsLeastClosed | openblade/api/main.py:479-493 | every set that holds what `paths` mentions and follows its own references holds everything reachable: the kept set is the least possible |
| OpenApiPruning.KeepBucket | openblade/api/main.py:495-505 | a bucket keeps exactly its reached members, security schemes keep all, and a bucket left empty disappears |
| OpenApiPruning.OpenApiSchema.PruneUnreferencedComponents | openblade/api/main.py:474-506 | the schema updated in place keeps every other field and exactly the components of `Pruned`, whose laws are the rows below; without components the schema is untouched |
| OpenApiPruning.OpenApiSchema.FilterScalarOpenApi | openblade/api/main.py:509-523 | the schema ends as `Filtered`: only in-scope paths, then pruned |
| OpenApiPruning.ResolvesAfterPruning | openblade/api/main.py:474-506 | exactly the components that were reachable, and every security scheme, resolve after pruning, each with its payload unchanged; `paths` is unchanged |
| OpenApiPruning.NullComponentGoes | openblade/api/main.py:483-505 | a component that is null counts as missing and goes, whatever refers to it |
| OpenApiPruning.SecuritySchemesStay | openblade/api/main.py:495-505 | the bucket of security schemes is the same after pruning |
| OpenApiPruning.NoFollowedReferenceBreaks | openblade/api/main.py:474-506 | a reference in `paths` or in a reached component that resolved before resolves after, to the same payload |
| OpenApiPruning.SchemeReferenceCanBreak | openblade/api/main.py:495-505 | a family of schemas in which a kept security scheme refers to a component that pruning drops: schemes are kept but not followed |
| OpenApiPruning.ReachableAfterPruning | openblade/api/main.py:479-493 | pruning changes the reachability of no reference |
| OpenApiPruning.PruneIdempotent | openblade/api/main.py:474-506 | pruning twice equals pruning once, on every schema |
| OpenApiPruning.SurvivingPathIntact | openblade/api/main.py:509-523 | an allowed path keeps its description, and each reference in it that resolved still resolves to the same payload after filtering and pruning |
| OpenApiPruning.FilteredPathsExactly | openblade/api/main.py:509-523 | a path is in the filtered document if and only if it was there and, slashes at its end aside, it is some path of the matrix or the health path; its item is unchanged |
| OpenApiPruning.FilterIdempotent | openblade/api/main.py:509-523 | filtering twice equals filtering once, on every schema and every matrix |
| OpenApiPruning.RefTargetOf | openblade/api/main.py:458-471 | the `$ref` written for a component is read back as that component |
| OpenApiPruning.RefTargetExactly | openblade/api/main.py:458-471 | a text refers to a component if and only if it is `#/components/kind/name`, with anything after one more slash |
| PathTemplates.NormalizeIdempotentExactly | openblade/api/aml_scope.py:16-21 | normalization is idempotent on a path if and only if the path is not two or more slashes and nothing else |
| PathTemplates.NormalizeEqualExactly | openblade/api/aml_scope.py:16-21 | two paths have one normal form if and only if they differ in nothing but trailing slashes; among slashes alone, two or more are told from fewer |
| PathTemplates.DollarMeaning | openblade/api/aml_scope.py:24-32 | a pattern that ends in `$` accepts a text exactly when the pattern without it consumes all of the text, or all but one final newline |
| PathTemplates.SegmentStep | openblade/api/aml_scope.py:24-32 | one compiled segment consumes exactly the text up to the next slash, and consumes it exactly when the segment matches it: a literal equals it, a placeholder needs it non-empty |
| PathTemplates.BodyMeaning | openblade/api/aml_scope.py:24-32 | the compiled body with its optional trailing slash consumes a text exactly when the text's parts line up one-to-one with the segments |
| PathTemplates.CompiledMeaning | openblade/api/aml_scope.py:24-32 | the anchored pattern, run character by character, accepts a path exactly when the path lines up with the template's non-empty segments, possibly with one final newline dropped |
| PathTemplates.MeaningExactlyWhen | openblade/api/aml_scope.py:24-32 | acceptance equals segment-by-segment matching except, exactly, on a path ending in a newline that lines up without it and whose last part is a literal or empty |
| PathTemplates.RootTakesNewline | openblade/api/aml_scope.py:24-32 | the root template accepts a slash followed by a newline, which does not line up with it |
| PathTemplates.NewlineInLastPart | openblade/api/aml_scope.py:24-32 | a matching path still lines up after a newline is appended if and only if the newline falls into a non-empty placeholder part |
| PathTemplates.SegmentsAreNonEmptyParts | openblade/api/aml_scope.py:24-32 | the segments compiled are the non-empty parts of the whole template split at slashes, however many slashes lead or trail |
| PathTemplates.BraceSegment | openblade/api/aml_scope.py:28-31 | a segment in braces, whatever its name, takes every part that is not empty |
| PathTemplates.LiteralSegment | openblade/api/aml_scope.py:28-31 | a segment that is not in braces takes its own text alone |
| PathTemplates.AcceptsExactly | openblade/api/aml_scope.py:24-32 | a template accepts a path without a final newline if and only if the path's parts fill its segments one by one: literal ones as they are, those in braces with anything |
| PathTemplates.MatrixEndpointPatterns | openblade/api/aml_scope.py:75-83 | the pattern table groups the entries by method, in order, each compiled with its own path, and has no other method |
| PathTemplates.IsMatrixEndpoint | openblade/api/aml_scope.py:86-91 | the search answers yes if and only if some entry of that upper-cased method accepts the normalized path |
| PathTemplates.ListedExactly | openblade/api/aml_scope.py:75-91 | a path without a final newline is found if and only if it fills a listed template of that method, whatever slashes follow it |
| PathTemplates.TrailingSlashesIgnored | openblade/api/aml_scope.py:86-91 | appending any number of slashes to a path with a non-slash character never changes the answer |
| PathTemplates.SlashRunNeverMatches | openblade/api/aml_scope.py:86-91 | two or more slashes and nothing else never match any entry |
| LoginLimiter.Limiter.CheckRateLimit | openblade/api/routes_aml_auth.py:51-65 | an attempt is admitted if and only if fewer than N admissions since the last clear lie in [now-W, now]; the history gains this attempt, a rejection carries the advertised seconds, other addresses' deques stay |
| LoginLimiter.Limiter.ClearRateLimit | openblade/api/routes_aml_auth.py:68-70 | clearing empties one address's deque and leaves all others |
| LoginLimiter.TrimmedDeque | openblade/api/routes_aml_auth.py:51-65 | the trimmed deque is exactly the tail of the admitted attempts since the last clear that lies in the window, and its head gives the advertised seconds |
| LoginLimiter.AgreesAfterAttempt | openblade/api/routes_aml_auth.py:51-65 | one attempt keeps every deque in agreement with the history |
| LoginLimiter.AgreesAfterClear | openblade/api/routes_aml_auth.py:68-70 | one clear keeps every deque in agreement with the history |
| LoginLimiter.RunSpaced | openblade/api/routes_aml_auth.py:51-65 | in every run an admission lies more than W after the one N places before it |
| LoginLimiter.WindowBound | openblade/api/routes_aml_auth.py:51-65 | in every run no closed interval of length W holds more than N admissions of one address between clears |
| LoginLimiter.RejectionFacts | openblade/api/routes_aml_auth.py:53-63 | a rejection means at least N admissions, and the seconds are counted from the N-th newest: the deque never holds more than N |
| LoginLimiter.RetryAfterSuffices | openblade/api/routes_aml_auth.py:53-63 | a client rejected at `now` that retries at or after `now` plus the advertised seconds, with no admission in between, is admitted |
| LoginLimiter.RetryAfterTight | openblade/api/routes_aml_auth.py:53-63 | without a clear, retrying any time up to one second less than advertised is rejected again: the advice is tight to one second |
| LoginLimiter.NothingAllowed | openblade/api/routes_aml_auth.py:46-60 | a configured limit of zero or less rejects every attempt |
| LoginLimiter.NothingAllowedAdvice | openblade/api/routes_aml_auth.py:53-65 | with such a limit the advice is always one second |
| SessionTable.StepAgrees | openblade/api/aml_state.py:2482-2571 | each session function keeps the lazily purged table in agreement with the ledger in which time removes nothing |
| SessionTable.Refinement | openblade/api/aml_state.py:2482-2571 | in every run, at every later instant, the live sessions of the lazily purged table are exactly those of the ledger |
| SessionTable.DeadlineMeaning | openblade/api/aml_state.py:2506-2546 | a stored expiry is the one that the history of the token's touches gives |
| SessionTable.LedgerMeaning | openblade/api/aml_state.py:2489-2571 | a token is in the ledger if and only if no call after the login that issued it cleared or evicted it, and it belongs to that login's user |
| SessionTable.LookupMeaning | openblade/api/aml_state.py:2538-2546 | in every run a token is live if and only if it was issued, was not cleared or evicted since, and the clock is strictly before its deadline |
| SessionTable.SettingsMeaning | openblade/api/aml_state.py:2703-2706 | the timeout and the fault lifetime in force are the ones last set, or those at the start, and no others |
| SessionTable.LastTouchDeadline | openblade/api/aml_state.py:2506-2546 | a session's stored expiry is that of its last touch: the login, or a lookup that found it live while no fault lifetime was set |
| SessionTable.LiveExactly | openblade/api/aml_state.py:2482-2571 | in every run a session is live if and only if it was issued, was not cleared or evicted since, and the clock is before its last touch plus sixty seconds for each minute of the timeout then set, or plus the fault lifetime then set |
| SessionTable.OldestCount | openblade/api/aml_state.py:2519-2524 | eviction selects the number it should: all above the cap less one |
| SessionTable.OldestAreOlder | openblade/api/aml_state.py:2519-2524 | every selected session is older than every session of the user that is not selected, ties going by insertion order |
| SessionTable.LoginEffect | openblade/api/aml_state.py:2515-2535 | in every run a login succeeds, evicts only live sessions of its own user, exactly as many as the cap needs and none newer than one that stays, and leaves every other live session as it was |
| SessionTable.CapHolds | openblade/api/aml_state.py:2492-2535 | with a fixed setting every reachable table holds at most the cap's number of sessions of each user |
| SessionTable.PendingMeaning | openblade/api/aml_state.py:2549-2557 | in every run a session is pending if and only if it was issued pending and its own token was not confirmed since: nothing else clears the flag |
| SessionTable.SortByCreation | openblade/api/aml_state.py:2519-2524 | the sort orders a user's sessions by creation, ties by insertion, without loss |
| SessionTable.EvictOldest | openblade/api/aml_state.py:2519-2524 | the eviction loop removes exactly the evicted sessions of the user |
| SessionTable.SessionStore.PurgeExpiredSessions | openblade/api/aml_state.py:2482-2486 | purging is the purge event of the run, and the store's invariant holds |
| SessionTable.SessionStore.CreateSession | openblade/api/aml_state.py:2515-2535 | creating a session is the login event of the run: purge, evict, insert |
| SessionTable.SessionStore.GetSessionUser | openblade/api/aml_state.py:2538-2546 | the user is returned if and only if the ledger says the token is alive and its user still exists; a live lookup touches the session |
| SessionTable.SessionStore.IsSessionMfaPending | openblade/api/aml_state.py:2549-2551 | the answer is yes exactly for a stored session issued pending and never confirmed |
| SessionTable.SessionStore.ClearSessionMfaPending | openblade/api/aml_state.py:2554-2557 | clearing the flag is the confirmation event of the run |
| SessionTable.SessionStore.ClearSession | openblade/api/aml_state.py:2560-2561 | clearing a token is that event of the run |
| SessionTable.SessionStore.ClearUserSessions | openblade/api/aml_state.py:2564-2567 | clearing a user is that event of the run, by a loop over the stored sessions |
| SessionTable.SessionStore.ClearAllSessions | openblade/api/aml_state.py:2570-2571 | clearing everything is that event of the run |
| SessionTable.SessionStore.SetSessionTimeout | openblade/api/aml_state.py:2703-2706 | changing the timeout is that event of the run: stored deadlines stay, expired sessions go |
| AuthGate.SessionToken | openblade/api/routes_aml_auth.py:338-348 | the token is the cookie when it is usable and otherwise the bearer token when that is, and the run gains exactly the lookups this takes |
| AuthGate.ChosenExactly | openblade/api/routes_aml_auth.py:338-348 | a token is selected if and only if it is a non-empty cookie that is usable, or a usable bearer token beside no such cookie |
| AuthGate.Authenticate | openblade/api/routes_aml_auth.py:351-379 | a request is accepted exactly when the chosen token is still alive at its second lookup and, unless pending is allowed, its flag is down; the run gains exactly the lookups made |
| AuthGate.AcceptedExactly | openblade/api/routes_aml_auth.py:351-379 | a token is accepted if and only if it is selected, the clock at its second lookup is before the deadline that the first gave it, and its flag is down or may be up |
| AuthGate.AloneExactly | openblade/api/routes_aml_auth.py:351-379 | at one clock reading a request that presents one credential, as a cookie or as a bearer token, is accepted if and only if its session lives, its user exists, its flag is down or may be up, and the timeout is positive or a fault lifetime is set |
| AuthGate.ValidateMfa | openblade/api/routes_aml_auth.py:697-712 | unauthorized, refused or validated by the caller's own user; only a validated request confirms, and it confirms the token that its credentials select anew; the run gains exactly these lookups and that confirmation |
| AuthGate.FailedLookup | openblade/api/routes_aml_auth.py:338-348 | looking up a token that is not usable changes the usability of no other |
| AuthGate.DeadStaysDead | openblade/api/routes_aml_auth.py:338-379 | lookups bring no dead session back to life |
| AuthGate.LookupsKeepUsers | openblade/api/routes_aml_auth.py:338-379 | lookups add, remove and rename no session |
| AuthGate.AuthenticatedRenewed | openblade/api/routes_aml_auth.py:351-379 | authenticating leaves the caller's session as it was but for its deadline: that lookup plus the timeout, or the stored one under a fault lifetime |
| AuthGate.AcceptedOwesNothing | openblade/api/routes_aml_auth.py:369-379 | in every run a session that `require_auth` accepts was never pending or was confirmed since its login |
| AuthGate.ConfirmedExactly | openblade/api/routes_aml_auth.py:697-712 | a validated request confirms the caller's own session if and only if it is prompt: the winning credential is looked up anew before the deadline that authenticating gave it; otherwise it confirms the bearer token beside the cookie, or nothing |
| AuthGate.UserCheckedExactly | openblade/api/routes_aml_auth.py:697-712 | the code that passed is that of the confirmed session's user if and only if the request is prompt or both credentials belong to one user |
| AuthGate.ConfirmationTraced | openblade/api/routes_aml_auth.py:697-712 | in every run of requests a confirmed session was confirmed by one of its MFA requests |
| AuthGate.OwnCodeExactly | openblade/api/routes_aml_auth.py:697-712 | in every run of requests, one that confirmed a session had that session's own code checked if and only if it was prompt |
| AuthGate.AcceptedAfterOwnCodeExactly | openblade/api/routes_aml_auth.py:338-379 | in every run of requests, a session issued pending that `require_auth` accepts was confirmed by an MFA request; one that confirmed it had its own code checked if and only if one that confirmed it was prompt |
| AuthGate.AcceptedAfterOwnCode | openblade/api/routes_aml_auth.py:338-379 | when the requests that confirm a session are prompt, it is never accepted before its own code was checked |
| AuthGate.LateRequestConfirmsAnother | openblade/api/routes_aml_auth.py:697-712 | a run in which Alice's code confirms Bob's session, which `require_auth` then accepts although no code of Bob's was checked |
| CompatCapture.WalkShape | tools/compat_capture.py:142-163 | sanitizing preserves shape: keys, list lengths, nulls and booleans |
| CompatCapture.WalkIdempotentExactly | tools/compat_capture.py:142-169 | on every JSON tree and for every pair of scrubs, sanitizing twice equals sanitizing once if and only if the tree is settled: each string that a scrub reaches is a fixed point after one scrub, and so is a mark that stands under a cookie key in place of a number |
| CompatCapture.SecondPassCanChange | tools/compat_capture.py:100-128 | a document that the second pass changes: the bearer rule leaves a placeholder that the element rule then takes for a tag |
| CompatCapture.WalkLeafwise | tools/compat_capture.py:131-163 | each leaf of the result is given by the first key rule on the path to it, at any depth |
| CompatCapture.SecretsCovered | tools/compat_capture.py:131-163 | every other leaf beneath a password, token or serial key ends as a placeholder, at any depth, unless it is a string under a cookie key of its own |
| CompatCapture.SpellsExactly | tools/compat_capture.py:72-78 | the search on the normalized key finds a word if and only if the key spells it, in either case and with underscores and hyphens anywhere |
| CompatCapture.KeyKindsExactly | tools/compat_capture.py:48-58 | a key is a password, cookie, token or serial key if and only if it spells one of that kind's listed words |
| CompatCapture.LeafExactly | tools/compat_capture.py:142-159 | what becomes of a number or string right under a key, by the words that the key spells |
| CompatCapture.SpelledSecretCovered | tools/compat_capture.py:131-163 | however deep below it, a listed secret word in any spelling hides every number and string, but for a string right under a cookie key |
| CompatCapture.CleanBodyIsWalk | tools/compat_capture.py:235-236 | sanitizing the wrapped body and unwrapping it is sanitizing the body |
| CompatCapture.UntouchedFixed | tools/compat_capture.py:235-243 | the `json_contains` entries kept are fixed points of the second sanitize pass |
| CompatCapture.BuiltExpectation | tools/compat_capture.py:219-278 | a built case expects the response's status, its scrubbed media type, and exactly the top-level body fields that sanitizing leaves unchanged |
| CompatCapture.ExpectedContentType | tools/compat_capture.py:237-240 | a built case expects the scrubbed media type if and only if the response has a content type that is not empty |
| CompatCapture.MediaTypeExactly | tools/compat_capture.py:238-240 | the media type is what comes before the first semicolon, without the spaces around it |
| CompatCapture.UntouchedExactly | tools/compat_capture.py:241-243 | a top-level field is recorded as enforceable if and only if sanitizing the body leaves it unchanged |
| CompatCapture.ProvenanceKept | tools/compat_capture.py:228-278 | a case that claims to be captured names its firmware and who attests it; any other built case says it comes from the emulator and names no one |
| CompatCapture.ObservedKept | tools/compat_capture.py:244-254 | the observed response is in the case: every header but the date, and the body |
| CompatCapture.Drift | tools/compat_capture.py:281-298 | the problems listed are exactly the status, header and field mismatches between case and response |
| CompatCapture.NoProblemExactly | tools/compat_capture.py:281-298 | there is nothing to report if and only if the status is the expected one, every expected header value stands in the response's, and every expected field is equal in its body |
| CompatCapture.ReplayDrift | tools/compat_capture.py:219-298 | replaying a built case against the response it was built from reports a problem if and only if there is a content type and it does not contain the scrubbed form of its media type |
| CompatCapture.ReplayWithoutDrift | tools/compat_capture.py:219-298 | no problem is reported for a response whose media type has nothing to scrub |
| CompatCapture.BuiltCaseScrubbedExactly | tools/compat_capture.py:219-278 | sanitizing a built case again leaves it as it is if and only if the case was settled before its final pass |
| CompatCapture.PasswordChoiceKept | tools/compat_capture.py:255-278 | a string password in the recipe becomes the good placeholder exactly when it is the login's password and the invalid one otherwise, and the final sanitize keeps that choice |
| CompatCapture.GoodPasswordExactly | tools/compat_capture.py:255 | the login's password is all that follows its first colon |
| HydratorShim.ExclusiveStep | deploy/nas-protocols/hydrator_shim.py:36-73 | every atomic step keeps: threads not done hold different paths, each of them in flight |
| HydratorShim.LogStep | deploy/nas-protocols/hydrator_shim.py:36-73 | every atomic step keeps, for each path: hydrated lines plus hydrations still owing never exceed recall lines |
| HydratorShim.FilesStep | deploy/nas-protocols/hydrator_shim.py:36-73 | every atomic step keeps, when no requested name is another's temporary name: every other file is its original content or the complete tape content |
| HydratorShim.OneHydrationPerPath | deploy/nas-protocols/hydrator_shim.py:36-73 | in every interleaving, with threads that die included, two threads that are not done have different paths and different temporary files |
| HydratorShim.HydratedAtMostRecalled | deploy/nas-protocols/hydrator_shim.py:36-73 | in every reachable state a path's hydrated lines never outnumber its recall lines |
| HydratorShim.TargetsIntact | deploy/nas-protocols/hydrator_shim.py:36-73 | in every reachable state a file that is no temporary file holds its original content or the complete tape content, and a path logged as hydrated has come from tape |
| HydratorShim.RequestedWhole | deploy/nas-protocols/hydrator_shim.py:36-73 | in every reachable state a requested path has the file it started with, or none if it had none, or the complete tape file |
| HydratorShim.FinishedThread | deploy/nas-protocols/hydrator_shim.py:36-48 | in every run, a finished immediate or delayed hydration has logged itself after its recall and left the tape bytes in its target, a finished tape error has been reported, and a delay that is no number never finishes |
| HydratorShim.OtherModesWriteNothing | deploy/nas-protocols/hydrator_shim.py:36-48 | in every run, a thread of any other mode changes no file and no log line in any of its steps |
| HydratorShim.LogExactly | deploy/nas-protocols/hydrator_shim.py:46-72 | in every reachable state a path's recall lines number its threads and the one about to start, and its hydrated lines number the threads that have written theirs: hydrations finishing or done, and those that died after writing |
| HydratorShim.HydrationCanFinish | deploy/nas-protocols/hydrator_shim.py:36-48 | a started hydration whose tape file is there has a run to its end, which replaces its target, removes its temporary file, logs it and frees its path |
| HydratorShim.PollAccepts | deploy/nas-protocols/hydrator_shim.py:54-72 | a requested stub that is not in flight has a run that logs its recall and starts its thread, in any mode |
| HydratorShim.OnlyStubsRecalled | deploy/nas-protocols/hydrator_shim.py:59-61 | in every run, a file whose recall was logged has been seen to begin with the stub's line |
| HydratorShim.SeparationNeeded | deploy/nas-protocols/hydrator_shim.py:43-45 | the condition is needed: a run in which one requested name is another's temporary name leaves a target neither original nor complete |
| HydratorShim.DeadPathStaysBlocked | deploy/nas-protocols/hydrator_shim.py:36-73 | a thread that died keeps its path in flight for ever: no later state has a further recall of that path |
| HydratorShim.TmpInjective | deploy/nas-protocols/hydrator_shim.py:43 | different targets have different temporary files |
| PoolIds.SlugShape | openblade/api/aml_state.py:933-935 | a normalized id is empty or has the shape of a slug: letters and digits, single hyphens, none at an end |
| PoolIds.SlugFixed | openblade/api/aml_state.py:933-935 | every slug normalizes to itself |
| PoolIds.SlugOfWords | openblade/api/aml_state.py:933-935 | a value of words and separators normalizes to its words in lower case, with one hyphen between two |
| PoolIds.SlugIgnoresSpace | openblade/api/aml_state.py:933-935 | spaces around a value make no difference to its normal form |
| PoolIds.NormalizeFixed | openblade/api/aml_state.py:933-935 | normalizing, with its generated fallback, gives a slug and is idempotent |
| MediaPools.ClaimMembers | openblade/api/aml_state.py:3569-3583 | a pool claims exactly the existing, not yet taken barcodes whose trimmed form its list names |
| MediaPools.WantsExactly | openblade/api/aml_state.py:3569-3574 | a stored pool asks for what its assigned list names, spaces around that aside, or its other list when the field is missing; a field that is no list asks for nothing |
| MediaPools.FirstClaimWins | openblade/api/aml_state.py:3565-3626 | after a sync a barcode is in a pool if and only if it exists, that pool wants it and no earlier pool does |
| MediaPools.SyncPartition | openblade/api/aml_state.py:3565-3626 | whatever the stored lists held, a sync leaves them duplicate-free, pairwise disjoint, within the media table and equal to `barcodes` and `mediaCount`, with the keys as before |
| MediaPools.SyncFixed | openblade/api/aml_state.py:3565-3626 | a sync changes nothing in pools that already are such a partition |
| MediaPools.SyncIdempotent | openblade/api/aml_state.py:3565-3626 | syncing twice equals syncing once, on every stored state |
| MediaPools.RemovalEffect | openblade/api/aml_state.py:3653-3719 | removing media takes exactly those barcodes out of each pool and keeps the order of the rest |
| MediaPools.AssignLists | openblade/api/aml_state.py:3793-3820 | each pool's exact list after an assignment: every pool keeps its others in order, and the target appends the moved ones |
| MediaPools.RequestedInOrder | openblade/api/aml_state.py:3799-3801 | the moved barcodes keep the order in which the request first mentions them |
| MediaPools.AssignMovesExactlyWhen | openblade/api/aml_state.py:3793-3820 | an assignment moves exactly the requested existing barcodes to the target and leaves every other barcode's pool alone if and only if every requested existing barcode is trimmed and not empty |
| MediaPools.UntrimmedNotMoved | openblade/api/aml_state.py:3793-3820 | a media entry with a leading space that is requested as it stands and ends in no pool |
| MediaPools.AssignPartition | openblade/api/aml_state.py:3793-3820 | an assignment keeps the partition for every request |
| MediaPools.UnassignEffect | openblade/api/aml_state.py:3823-3836 | unassigning takes exactly those barcodes from the named pool and touches no other |
| MediaPools.CreateEffect | openblade/api/aml_state.py:3839-3865 | a new pool gets exactly the wanted barcodes that exist and no pool holds, and takes nothing from the others |
| MediaPools.CreatedPool | openblade/api/aml_state.py:3839-3865 | a created pool holds exactly the listed barcodes that exist and that no other pool holds, and shows the name given, stripped, or its id when that is blank |
| MediaPools.UpdatedPools | openblade/api/aml_state.py:3868-3902 | an update gives its pool exactly the listed barcodes that exist and that no earlier pool holds; later pools lose what it lists, and all else stays |
| MediaPools.SameNameExactly | openblade/api/aml_state.py:3844-3848 | two names collide if and only if they differ in nothing but spaces around them and the case of letters |
| MediaPools.MediaStore.ClaimBarcodes | openblade/api/aml_state.py:3569-3583 | the claiming loop computes the list the sync is specified by and extends the taken set by it |
| MediaPools.MediaStore.SyncAmlMediaCounts | openblade/api/aml_state.py:3551-3626 | the sync loop ends in the specified pools and re-establishes the store's invariant from any stored lists |
| MediaPools.MediaStore.AssignAmlMediaToPool | openblade/api/aml_state.py:3793-3820 | an unknown pool is refused with nothing changed; otherwise the new pools are those whose laws the assign rows state |
| MediaPools.MediaStore.UnassignAmlMediaFromPool | openblade/api/aml_state.py:3823-3836 | an unknown pool is refused with nothing changed; otherwise the new pools are those of the unassign row |
| MediaPools.MediaStore.ExportAmlMedia | openblade/api/aml_state.py:3712-3719 | exporting removes the barcodes from the table and from the pools, keeping the invariant |
| MediaPools.MediaStore.ImportAmlMedia | openblade/api/aml_state.py:3677-3709 | importing enlarges the table and changes no pool, keeping the invariant |
| MediaPools.MediaStore.CreateAmlMediaPool | openblade/api/aml_state.py:3839-3865 | a taken id or name is refused with nothing changed; otherwise the pool is added and synced |
| MediaPools.MediaStore.UpdateAmlMediaPool | openblade/api/aml_state.py:3868-3902 | an unknown pool or a name taken by another is refused with nothing changed; otherwise the fields are overwritten and synced |
| MediaPools.MediaStore.DeleteAmlMediaPool | openblade/api/aml_state.py:3905-3910 | deleting removes exactly the named pool and keeps the others as they are |
| MediaPools.MediaStore.FindAmlMediaPoolName | openblade/api/aml_state.py:3785-3790 | the name found is that of the one pool that holds the barcode, and none when no pool does |
| CleaningCartridges.GeneratedInjective | openblade/api/aml_state.py:1797-1798 | different seeds give different generated barcodes, past three digits too |
| CleaningCartridges.PicksDistinct | openblade/api/aml_state.py:1815-1862 | the greedy rule never gives one barcode to two drives |
| CleaningCartridges.RealCartridgesUsed | openblade/api/aml_state.py:1815-1862 | exactly the smaller of the number of LTO drives and the number of distinct real barcodes are used |
| CleaningCartridges.MatchingTypePreferred | openblade/api/aml_state.py:1815-1862 | while a cartridge of the drive's own type is free, the drive gets a cartridge of that type |
| CleaningCartridges.GreedyUnique | openblade/api/aml_state.py:1815-1862 | the greedy rule determines the assignment |
| CleaningCartridges.SortById | openblade/api/aml_state.py:1832 | drives are taken in id order, none lost or added, those of one id in the order given |
| CleaningCartridges.NextGenerated | openblade/api/aml_state.py:1851-1857 | the unbounded search ends, with the first generated barcode not consumed, and never has to look back |
| CleaningCartridges.FirstFree | openblade/api/aml_state.py:1838-1850 | the scan finds the first free cartridge of the wanted types, or that there is none |
| CleaningCartridges.Pick | openblade/api/aml_state.py:1838-1862 | one drive's barcode follows the greedy rule: own type, then any, then generated |
| CleaningCartridges.AssignCleaningBarcodes | openblade/api/aml_state.py:1815-1862 | the loops give every LTO drive its greedy pick and no other drive a barcode; of drives with one id the last is kept |
| CleaningCartridges.AssignmentInjective | openblade/api/aml_state.py:1815-1862 | no barcode is assigned to two ids |
| CleaningCartridges.AssignmentComplete | openblade/api/aml_state.py:1815-1862 | the stripped ids of the drives served are the ones assigned, and when they are distinct each drive has its own pick |
| CleaningCartridges.LtoDrivesExactly | openblade/api/aml_state.py:1832-1836 | the drives served are those given whose stripped id is not empty and whose stripped, upper-case type begins with LTO-, each as often as it is given |
| CleaningCartridges.StockExactly | openblade/api/aml_state.py:1820-1827 | the stock holds the given cartridges whose stripped barcode is not empty, with their types stripped and in upper case, and no others |
| CleaningCartridges.StockConcat | openblade/api/aml_state.py:1820-1827 | the stock keeps the order of the inventory |
| CleaningCartridges.AssignedExactly | openblade/api/aml_state.py:1815-1862 | the ids assigned are exactly the stripped ids of the LTO drives given |
| CleaningCartridges.GenuineUsed | openblade/api/aml_state.py:1815-1862 | of the distinct non-empty barcodes given exactly as many are used as there are, or as there are LTO drives |
| CleaningCartridges.OwnTypePreferred | openblade/api/aml_state.py:1837-1845 | a drive gets a given cartridge of its own type with -CLN unless earlier drives have all of those |
| CleaningCartridges.GeneratedText | openblade/api/aml_state.py:1797-1798 | the generated barcode is CLN, the number from 901 on, and L9 |
| CleaningCartridges.AtMostExactly | openblade/api/aml_state.py:1832 | the order of ids goes by the first difference, a text coming before its continuations |
| LatencyMetrics.RoundBetween | openblade/api/aml_state.py:178-191 | rounding to three places never leaves an interval between two integers |
| LatencyMetrics.RoundNearest | openblade/api/aml_state.py:191 | the rounded value is a number of thousandths no farther from the exact one than half a thousandth |
| LatencyMetrics.KeySeparates | openblade/api/aml_state.py:2178-2182 | requests share an entry if and only if they share the endpoint and, in upper case, the method |
| LatencyMetrics.RecordedValues | openblade/api/aml_state.py:179 | the values recorded are the requests' own, a negative one counting as zero |
| LatencyMetrics.StatShows | openblade/api/aml_state.py:178-191 | an aggregate shows values that occur as least and greatest, the last, the sum, and the mean to half a thousandth |
| LatencyMetrics.DurationsShown | openblade/api/aml_state.py:178-191 | an endpoint that saw no negative duration shows the least, greatest, last and total of its requests' durations |
| LatencyMetrics.UpdatedIsStat | openblade/api/aml_state.py:178-191 | one incremental update keeps min, max, average, total and last equal to those of the whole list of values |
| LatencyMetrics.AverageWithinRange | openblade/api/aml_state.py:178-191 | min <= average <= max also after rounding |
| LatencyMetrics.TotalByGroup | openblade/api/aml_state.py:2162-2204 | a total over the history is the sum over its groups, whatever is weighed and however it is grouped |
| LatencyMetrics.UpdatedEndpointSummarizes | openblade/api/aml_state.py:2162-2204 | one request keeps an endpoint's record equal to the recomputation from that endpoint's requests |
| LatencyMetrics.TableAfter | openblade/api/aml_state.py:2162-2204 | one request keeps the table of endpoints equal to its recomputation from the history |
| LatencyMetrics.EndpointTotals | openblade/api/aml_state.py:2162-2204 | captured requests and both global totals are the sums of the endpoints' counts and totals |
| LatencyMetrics.StatusCountsAddUp | openblade/api/aml_state.py:2162-2204 | an endpoint's count is the sum of its status counts |
| LatencyMetrics.LatencyRecorder.Record | openblade/api/aml_state.py:2162-2204 | recording a request in place keeps every aggregate equal to the recomputation from the longer history |
| LatencyMetrics.LatencyRecorder.Reset | openblade/api/aml_state.py:2157-2159 | a reset is a recorder with an empty history |
| AccessGroups.GroupGone | openblade/api/aml_state.py:3074-3084 | deleting a group from both sides keeps the two tables symmetric and ends exactly its memberships |
| AccessGroups.HostGone | openblade/api/aml_state.py:3271-3281 | deleting a host from both sides keeps the two tables symmetric and ends exactly its memberships |
| AccessGroups.LinkAdded | openblade/api/aml_state.py:3284-3298 | adding a host to a group, created if need be, keeps symmetry and adds exactly that membership |
| AccessGroups.LinkRemoved | openblade/api/aml_state.py:3301-3311 | removing a host from a group keeps symmetry and ends exactly that membership |
| AccessGroups.StandsMeans | openblade/api/aml_state.py:3067-3311 | a membership stands if and only if some change joined it and no later change ended it |
| AccessGroups.AccessControl.CreateAccessGroup | openblade/api/aml_state.py:3067-3071 | a new group starts empty, an existing one is refused and kept; no membership changes |
| AccessGroups.AccessControl.DeleteAccessGroup | openblade/api/aml_state.py:3074-3084 | exactly the group and its memberships go; hosts stay, with their aliases |
| AccessGroups.AccessControl.CreateAmlHost | openblade/api/aml_state.py:3140-3144 | a new host starts without groups, an existing one is refused and kept; no membership changes |
| AccessGroups.AccessControl.DeleteAmlHost | openblade/api/aml_state.py:3271-3281 | exactly the host and its memberships go; groups stay, with their devices |
| AccessGroups.AccessControl.AddHostToAccessGroup | openblade/api/aml_state.py:3284-3298 | an unknown group changes nothing; otherwise exactly that membership is added, and the host gets the alias when it is new or one is given |
| AccessGroups.AccessControl.RemoveHostFromAccessGroup | openblade/api/aml_state.py:3301-3311 | exactly that membership ends, and the answer says whether it stood |
| SerialMap.ParseDriveSerialMap | openblade/config.py:114-158 | the loop returns the outcome of the text: entries that parse every item, or the error of the first item that is malformed or repeats a serial or id |
| SerialMap.OutcomeUnique | openblade/config.py:114-158 | a text that fails at an item parses to nothing and fails nowhere else: the relation the parser is proved against has one outcome |
| SerialMap.ItemExactly | openblade/config.py:128-145 | an item is read at its last colon, spaces around that aside: which of the errors it raises, and otherwise which entry it makes |
| SerialMap.ItemWithoutColon | openblade/config.py:128-135 | an item without a colon has not the form of an entry |
| SerialMap.ItemsPadded | openblade/config.py:124-127 | spaces around a chunk make no difference, and blank chunks do not count |
| SerialMap.AcceptedIsMap | openblade/config.py:114-158 | every accepted text gives distinct, trimmed, non-empty, comma-free serials with distinct non-negative ids |
| SerialMap.ParseUndoesPrinting | openblade/config.py:114-158 | the `serial:id` rendering of any such list, colons in serials allowed, parses to the list in order |
| SerialMap.ParserUndoesPrinting | openblade/config.py:114-158 | so whatever the parser's contract lets it return on that rendering is the list itself |
| SerialMap.PrintingNormalizes | openblade/config.py:114-158 | printing what an accepted text parsed to gives a text that parses to the same entries |
| SlotGeometry.SlotCoordinate | openblade/api/routes_aml_library.py:405-433 | the loop over the sorted towers, decrementing what remains, computes the located coordinate of the sorted list |
| SlotGeometry.SortFacts | openblade/api/routes_aml_library.py:414-417 | sorting orders the towers by bay and neither loses nor adds one |
| SlotGeometry.SlotRecovered | openblade/api/routes_aml_library.py:405-433 | when no two towers with slots share a bay, every slot in range goes to an existing bay and row, and the slots below plus the row give the slot back |
| SlotGeometry.CoordinateRecovered | openblade/api/routes_aml_library.py:405-433 | every existing bay and row is the coordinate of exactly the slot so computed, which is in range |
| SlotGeometry.FallbackOutside | openblade/api/routes_aml_library.py:431-433 | a slot beyond the last goes to bay 1 and a row that no tower there has |
| SlotGeometry.CoordinatesInjective | openblade/api/routes_aml_library.py:405-433 | two positive slots with one coordinate are the same slot, the fallback included |
| SlotGeometry.InjectiveExactlyWhen | openblade/api/routes_aml_library.py:405-433 | without negative counts, the numbering is injective over all positive slots if and only if towers that have slots stand in bays of their own |
| SlotGeometry.SharedBayCollides | openblade/api/routes_aml_library.py:405-433 | two towers with slots in one bay give two slots one coordinate |
| Decimal.ParseIntRender | openblade/config.py:133-141 | reading a printed number gives the number |
| Decimal.ParseIntSigned | openblade/config.py:136-137 | a sign before a printed number is read as its sign |
| Decimal.ParseIntChars | openblade/config.py:136-137 | what is read as a number is digits and underscores after an optional sign, with a digit at both ends |
| Decimal.UnderscoreIgnored | openblade/config.py:136-137 | a single underscore between digits makes no difference |
| Text.SpacesExactly | openblade/config.py:125 | the characters stripped are those of Python's `isspace`, by their codes |
| Text.TrimParts | openblade/config.py:125 | stripping takes spaces off the two ends and nothing else |
| Text.TrimPadded | openblade/config.py:125 | a trimmed text is got back from any spaces around it |
| Text.CaseMaps | openblade/api/aml_state.py:1820-1827 | upper and lower case go back and forth between the 26 letters and change nothing else |
| Text.SplitJoin | openblade/config.py:120-124 | splitting what was joined gives the parts back, when none holds the separator |

## Left out

- AuthGate.ValidateMfa: the users for whom the presented code passes are a set; the lookup of the MFA configuration, the shape check of the code and the TOTP computation (RFC 6238) behind it are not part of this model. A request is one step of a run: no other request comes between its clock readings, and the purge that state initialization makes before each, which changes no ledger, is absent.
- AuthGate.AcceptedAfterOwnCodeExactly: asks that the accepted token is not the empty string, which the route confirms when it selects nothing; issued tokens are UUIDs and never empty.
- SessionTable.SessionStore.CreateSession: takes the token as a parameter that was never drawn before, in place of a random UUID, and one clock reading where the code reads the clock for the purge and again for the record.
- SessionTable.SessionStore.GetSessionUser: one clock reading where the code may read the clock again for the new expiry; the users table is a set of names.
- SessionTable.SessionStore.ClearSession: `list_sessions` and state initialization also purge; they are purge events of a run and have no member of their own.
- LoginLimiter.Limiter.CheckRateLimit: the environment's two numbers are one fixed policy per limiter; a policy that changes during a run is not modelled.
- CompatCapture.WalkIdempotentExactly: the regular expressions of the string and cookie scrubs are two functions about which nothing is assumed; the default key rules are modelled concretely.
- CompatCapture.SecondPassCanChange: what the scrub makes of its two strings is a hypothesis read off the expressions, which are not part of this model.
- CompatCapture.Drift: Python's `True == 1` and NaN, which differs from itself, are not modelled; JSON values compare as values.
- PathTemplates.CompiledMeaning: characters are compared as they are; the regular expression's alternatives are the four pattern tokens the compiler emits.
- OpenApiPruning.CollectComponentRefs: `~0` and `~1` escapes of JSON pointers are not decoded, as in the code.
- PoolIds.SlugFixed: lower-casing is that of the ASCII letters; `LatencyMetrics` and `CleaningCartridges` upper-case the same way.
- SerialMap.ParseDriveSerialMap: `int()` on digits outside ASCII, and its refusal of more than 4300 digits in Python 3.12 and later, are not modelled.
- MediaPools.MediaStore.SyncAmlMediaCounts: ids are normalized from the start and stay so, so the branch that re-keys a pool whose id is not is unreachable and absent; partition counts and the pool's policy, quota, colour and drive fields are absent.
- MediaPools.MediaStore.ImportAmlMedia: slot addresses and the other fields of a media entry are absent; a barcode is its own entry.
- HydratorShim.TargetsIntact: the length of a sleep, the parse of a stub's JSON (its mode is any mode), partly written log lines and requests that name the control or tape directory are not modelled; nothing is said about a hydrated file being recalled again, which a stale read allows.
- CleaningCartridges.MatchingTypePreferred: the greedy order is not claimed to make the number of type matches as large as possible.
- LatencyMetrics.AverageWithinRange: averages are real numbers rounded to three places, half to even; binary rounding error is not modelled.
- AccessGroups.AccessControl.AddHostToAccessGroup: the setters of a group's devices and of a host's alias change no membership and are absent.
- `replace_iblade_volume_groups`, MFA records, login activity, service access, password policy and the configuration dictionaries of the state module: simple setters and getters.
- The login route's parsing, content negotiation, LDAP branch and password hashing; HTTP routing, the user database, loading of the endpoint matrix file and serializers.
- The blade, firmware, NAS, events, archive and deployment modules, the scheduler and the restore planner.
