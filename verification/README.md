# MoxUI: verified model of the session, codec and concurrency core

MoxUI is a web front end for Proxmox clusters. Most of it forwards HTTP calls, but it
also contains small state machines, lock-free protocols and codecs that carry promises
about every run or every input. This project models those in Dafny and proves the promises.
`dafny verify dfyconfig.toml` checks the whole project.

| file | what it models |
|---|---|
| `Prelude.dfy` | shared datatypes and machine-integer bounds |
| `RefreshTokens.dfy`, `RefreshHistory.dfy` | the refresh-token store; every run of it: rotation chains, replay, logout |
| `PreAuth.dfy` | the store of pending two-factor logins |
| `AuthFlow.dfy`, `AuthHandlers.dfy` | login, two-factor completion, refresh and logout as interleaved steps over both stores; the handlers that take those steps |
| `Bits.dfy`, `Base32.dfy` | bit strings and shift registers; the base32 codec |
| `Totp.dfy`, `OtpAuthUrl.dfy`, `BackupCodes.dfy` | code truncation and skew window; percent-encoding and the provisioning URL; backup codes |
| `VncLimiter.dfy` | the compare-and-swap slot limiter, alone and under every interleaving |
| `CircuitBreaker.dfy` | the breaker as a function of its trace, and under every interleaving |
| `AuditQuery.dfy`, `AuditPaging.dfy` | the filter compiler, a small SQL evaluator, paging |
| `Readiness.dfy` | the TTL cache of cluster health, under every interleaving |
| `Backoff.dfy` | the retry policy and the webhook delivery loop |

## How the model relates to the program

Objects whose fields the program updates are classes; each method is proved equal to a
function of the old contents, and the theorems are about those functions. Concurrent code is
a state machine whose steps are the individual atomic operations (or lock regions), and a
theorem about "every run" is an induction over an arbitrary sequence of such steps.

Assumptions, all explicit in the model:

- SHA-256 is a free constructor, so it has no collisions. Ids, raw tokens and pre-auth tokens
  that a call generates are new (`Fresh`, `Legal`).
- The clock, random values and the results of pings, password checks, JWT signing, HMAC and
  bcrypt are parameters. A nondecreasing clock is assumed only where a contract says so.
- Atomic steps are sequentially consistent, and locks are never poisoned.
- Integers are unbounded except where a width matters: the u64 shift registers, the u32 slot
  and failure counters, the u64 subtraction in the breaker, the u64 offset product and its i64
  conversion, the saturating window arithmetic and the shift in the webhook loop. These wrap as
  in a release build. `|` of operands without common bits is written `+`.
- SQL is an evaluator for the statements that are sent: conditions over numbered parameters,
  a sort by `(ts, id)`, and LIMIT and OFFSET.
- Durations and the multiplier of the retry policy are exact reals.
- The users with two-factor login on are a fixed set during a run of the login machine.

## Where the code differs from its documentation

- `from_ts` and `to_ts` are documented as inclusive bounds (src/audit/store.rs:66-69) but
  compiled to equalities (src/audit/store.rs:308-313). `CodedIsDocumentedIff` gives the exact
  condition under which the two agree.
- An offset that does not fit an i64 becomes 0 (src/audit/store.rs:257), so such a page shows the
  first page again; `LaterPageEmptyIff` says exactly which pages after the last are empty.
- A failure threshold of 0 behaves like 1 (`Effective`).
- A breaker failure in flight can store its time after a concurrent success has closed the
  breaker, leaving it open with no failure counted (`SuccessCanBeOvertaken`), and a success half
  done can erase a failure that reached the threshold (`FailureCanBeErased`). `StaysClosedIff` and
  `StaysOpenIff` say exactly from which states this can happen; where no success overlaps a
  failure the sequential law survives every interleaving (`ApartRunsFollowTrace`).
- The documented delays of the webhook loop hold exactly up to attempt 64
  (`WaitedIsDoublingIff`); the first sleep of the retry policy is never capped
  (`SleepsAreCappedPowers`). The retry policy is documented to return the last error but panics
  for some policies; `ReturnsForEveryOracleIff` gives the exact condition on the policy.
- A spent backup code is not written back to the user (src/api/auth.rs:333-346), so it completes
  every later login of that user as well (`CompleteTwice`, `BackupCodeWorksAgain`). Single use holds
  for lists that are replaced by the result (`UsableOncePerEntry`); `SingleUseIff` says when the
  two agree.
- The guard of the VNC limiter lives until the handler returns (src/api/vnc.rs:201-208), so the cap
  bounds live guards and not open consoles (`ConsolesUnbounded`, `CapBoundsConsolesIff`).
- `refresh` rotates before it looks the user up, so a failure afterwards has spent the old token.

## Model

| member | source | states |
|---|---|---|
| `RefreshTokens.RefreshStore.Issue` | src/auth/refresh.rs:93-117 | the store gains exactly one unrevoked record under the given id and digest, expiring at now + ttl; the caller gets the raw token and that expiry |
| `RefreshTokens.RefreshStore.Find` | src/auth/refresh.rs:187-190 | the scan finds the one record with the token's digest, or reports that none has it |
| `RefreshTokens.RefreshStore.Verify` | src/auth/refresh.rs:125-143 | answers id and owner exactly for a known, unrevoked token that is not past its expiry; the store is untouched |
| `RefreshTokens.RefreshStore.Revoke` | src/auth/refresh.rs:149-157 | revokes that record and no other; true iff the id exists |
| `RefreshTokens.RefreshStore.RevokeAllForUser` | src/auth/refresh.rs:163-173 | every record of the user is revoked, all others unchanged; the count is the number that were unrevoked |
| `RefreshTokens.RefreshStore.Rotate` | src/auth/refresh.rs:183-239 | unknown and expired tokens change nothing, a revoked one revokes its user's records, an accepted one is revoked and replaced by one new record |
| `RefreshTokens.RefreshStore.ActiveCount` | src/auth/refresh.rs:250-256 | the number of unrevoked records that expire strictly later |
| `RefreshTokens.RotateIffVerify` | src/auth/refresh.rs:125-239 | at one instant rotation succeeds iff verification does, for the same user |
| `RefreshTokens.RotateCounts` | src/auth/refresh.rs:183-256 | a successful rotation adds one record; with positive ttl the active count is unchanged, and rises by one exactly when the old token expires at that instant |
| `RefreshHistory.RunKeepsWellFormed` | src/auth/refresh.rs:93-239 | in every run keys agree with their records and no two records share a digest |
| `RefreshHistory.RunGrows` | src/auth/refresh.rs:93-239 | in every continuation records stay, keep owner, digest and times, and never become unrevoked |
| `RefreshHistory.ChainsOfEveryRun` | src/auth/refresh.rs:93-239 | in every run the records form disjoint linear gapless chains, one per issue call and rooted at it, each of one user, in which only the last record can be unrevoked |
| `RefreshHistory.NeighboursAreExchanges` | src/auth/refresh.rs:183-239 | two records are neighbours in a chain iff some call of the run exchanged the first for the second |
| `RefreshHistory.RotatesAtMostOnce` | src/auth/refresh.rs:183-239 | two successful rotations of one raw token in a run are the same call |
| `RefreshHistory.LiveBoundedByIssues` | src/auth/refresh.rs:93-239 | for any set of users, unrevoked records never exceed the issue calls made for them |
| `RefreshHistory.IssuesAreCalls` | src/auth/refresh.rs:93-117 | the issues counted are the issue calls of the run for those users |
| `RefreshHistory.LegalExtends` | src/auth/refresh.rs:93-239 | a run may go on with any call whose generated id and token are new |
| `RefreshHistory.CountIsCreations` | src/auth/refresh.rs:93-239 | in every run the number of stored records is the number of issue calls plus successful rotations |
| `RefreshHistory.Count` | src/auth/refresh.rs:243-246 | after any run of calls the count is the number of issue calls plus successful rotations |
| `RefreshHistory.IssuedOwner` | src/auth/refresh.rs:93-117 | an issued record stays in the store with the user it was issued to |
| `RefreshHistory.RevokedForever` | src/auth/refresh.rs:125-157 | a token whose record is revoked is refused at every time in every continuation |
| `RefreshHistory.RevokedIffKilled` | src/auth/refresh.rs:149-239 | in every continuation a record is revoked iff it was, or a call revoked it by id or user, exchanged its token while good, or presented a revoked unexpired token of its user |
| `RefreshHistory.RotationMakes` | src/auth/refresh.rs:183-239 | a rotation makes the new record for the old one's user iff the token presented is known, unrevoked and not past its expiry |
| `RefreshHistory.RecordsStayAsMade` | src/auth/refresh.rs:93-239 | a record made by issue or rotation keeps its id, user, digest, expiry of time made plus ttl, and creation time in every continuation |
| `RefreshHistory.GoodUntilKilled` | src/auth/refresh.rs:93-239 | in every run a token handed out by issue or rotation is accepted for its record and user exactly until time made plus ttl and until a call revokes its record |
| `RefreshHistory.ReplayIsFinal` | src/auth/refresh.rs:198-207 | after a replay no token the user held before it is ever accepted again |
| `RefreshHistory.RefusedForever` | src/auth/refresh.rs:125-143 | a known token refused at one time is refused at every later time in every continuation |
| `RefreshHistory.RotateChangesIff` | src/auth/refresh.rs:183-239 | presenting a token changes the store iff it is known, unexpired and its user holds an unrevoked record; so an expired replay changes nothing |
| `RefreshHistory.LogoutIsFinal` | src/api/auth.rs:278-290 | once logout's verify and revoke steps are done its token is never accepted again, whatever ran between them and whatever follows |
| `PreAuth.PreAuthStore.Issue` | src/auth/totp.rs:179-195 | the store gains one unconsumed session that expires 300 seconds later |
| `PreAuth.PreAuthStore.Consume` | src/auth/totp.rs:203-220 | hands out the session iff it is stored, unexpired and unconsumed; the token is gone afterwards in every case |
| `PreAuth.PreAuthStore.PurgeExpired` | src/auth/totp.rs:230-236 | keeps exactly the unexpired, unconsumed sessions and counts the others |
| `PreAuth.ConsumedAtMostOnce` | src/auth/totp.rs:179-220 | in every run a token is consumed at most once, never before it is issued or while it is stored, and no stored session is marked consumed |
| `PreAuth.GrantedUntilRemoved` | src/auth/totp.rs:179-236 | in every run a token is granted, for the user it was issued to, exactly up to 300 seconds after its issue and until a consume of it or a purge past its expiry |
| `PreAuth.PurgingIsInvisible` | src/auth/totp.rs:203-236 | inserting purges anywhere changes no answer of any consume, as long as no purge carries a later time than a consume the lock lets in after it; the purged store refines the unpurged one |
| `PreAuth.SessionsConserved` | src/auth/totp.rs:179-236 | in every run the number of stored sessions is the number issued less the successful consumes, the dead sessions met by a consume, and the expired or consumed sessions met by a purge |
| `PreAuth.PreAuthStore.Count` | src/auth/totp.rs:224-227 | after any run of calls the count is that difference |
| `PreAuth.StoredIsOwned` | src/auth/totp.rs:179-195 | a stored session belongs to the user its token was issued to |
| `AuthFlow.OneAttemptPerToken` | src/api/auth.rs:307-351 | in every interleaving at most one step of the run finishes a code check for a pre-auth token, right or wrong, and each store follows a legal run of its own |
| `AuthFlow.AttemptsAreCodeChecks` | src/api/auth.rs:323-351 | the attempts on record are the steps of the run that finish a code check |
| `AuthFlow.OriginsOfEveryRun` | src/api/auth.rs:93-388 | every record issued to a two-factor user has a pre-auth token of its own, issued to that user and accepted with a right code by some step of the run |
| `AuthFlow.OriginsAreOwned` | src/api/auth.rs:307-388 | code checks in flight and records keep the user their pre-auth token was issued to, and every origin comes from a step with a known user and a right code |
| `AuthFlow.ChainsStartAtPreAuth` | src/api/auth.rs:204-388 | the chain of every record of a two-factor user starts at a record whose pre-auth token was issued to that same user, consumed once, checked once with a right code, and stands behind no other record |
| `AuthFlow.EveryLoginIsPaid` | src/api/auth.rs:93-388 | issued records, code checks in flight and waiting sessions of a two-factor user together never exceed the password checks passed |
| `AuthFlow.ChecksAreLogins` | src/api/auth.rs:93-101 | the password checks on record are the login steps of the run |
| `AuthFlow.PasswordChecksAreLogins` | src/api/auth.rs:93-101 | and so their number is that of the login steps of the user |
| `AuthFlow.LegalExtends` | src/api/auth.rs:93-388 | a run may go on with any step whose generated values and starting handler are new |
| `AuthFlow.LiveBoundedByPasswordChecks` | src/api/auth.rs:93-388 | a two-factor user never holds more unrevoked refresh tokens than login steps with a right password in the run |
| `AuthHandlers.Api.Login` | src/api/auth.rs:93-145 | takes exactly the login step of the machine; a wrong password touches no store; tokens are handed out iff the factor is off and signing works, and then for a stored record of seven days; a pre-auth token for a stored session of 300 seconds |
| `AuthHandlers.Api.CheckCode` | src/api/auth.rs:323-351 | accepts exactly a TOTP code of the window or a match of some stored backup code |
| `AuthHandlers.Api.TwoFactorComplete` | src/api/auth.rs:307-388 | takes the two completion steps of the machine with the facts of this call; the pre-auth token is gone whatever the reply; tokens iff the session was granted, the user exists, the code is right and signing works, and then for a stored unrevoked record of the session's user; otherwise no refresh record changes |
| `AuthHandlers.CodeAcceptedIff` | src/api/auth.rs:323-351 | a code is right iff a stored hash matches it or the secret yields it at some time of the window |
| `AuthHandlers.Api.Refresh` | src/api/auth.rs:204-256 | takes the refresh step even when user lookup or signing then fails; unauthorized iff the token does not verify |
| `AuthHandlers.Api.Logout` | src/api/auth.rs:278-290 | takes both logout steps; afterwards the token does not verify |
| `AuthHandlers.Api.CompleteTwice` | src/api/auth.rs:307-388 | a code that matches a stored backup hash and completed one login completes the next, exactly when that one's session is granted and signing works |
| `AuthHandlers.BackupCodeWorksAgain` | src/api/auth.rs:333-351 | a code that matches a stored hash is good for every completion of its user, in every state of the stores and at every time |
| `AuthHandlers.SingleUseIff` | src/api/auth.rs:333-346 | had the remaining codes been written back, a used code would pass again iff two stored hashes match it or it is a TOTP code of the moment |
| `AuthHandlers.RevokedIsDead` | src/auth/refresh.rs:125-157 | revoking the record that a token verified as makes the token unverifiable |
| `Bits.RegisterIn` | src/auth/totp.rs:249 | shifting digits into a 64-bit register that loses its high bits keeps the low bits the loop still needs |
| `Bits.RegisterOut` | src/auth/totp.rs:253 | a digit taken from the register is the digit of the full number, stale high bits notwithstanding |
| `Base32.AlphabetIsRfc4648` | src/auth/totp.rs:243 | the table is that of section 6 of RFC 4648 |
| `Base32.Position` | src/auth/totp.rs:272-278 | the index whose alphabet entry is the character, or none has it |
| `Base32.Encode` | src/auth/totp.rs:242-262 | the i-th character is the alphabet entry of the i-th 5-bit group of the zero-padded bit string |
| `Base32.Decode` | src/auth/totp.rs:265-289 | the whole bytes of the characters' bit string, or the first character outside the alphabet |
| `Base32.RoundTrip` | src/auth/totp.rs:242-289 | decoding the encoding of any byte sequence of any length returns it |
| `Base32.EncodedNumber` | src/auth/totp.rs:242-262 | the characters are the base-32 digits of the bytes read as a number and shifted by the padding |
| `Base32.DecodedNumber` | src/auth/totp.rs:265-289 | the decoded number is the quotient of the characters' number by the weight of the left-over bits |
| `Base32.CaseIsIgnored` | src/auth/totp.rs:272-277 | decoding a text and its upper-case form gives the same |
| `Base32.EncodedIndices` | src/auth/totp.rs:242-262 | the characters of an encoding carry exactly the padded bit string of the bytes |
| `Base32.DecodeOutcome` | src/auth/totp.rs:265-289 | decoding fails iff some character is no letter of either case and no digit from 2 to 7; otherwise the length is floor(5n/8) |
| `Base32.PayloadBits` | src/auth/totp.rs:279-286 | decoded bytes and left-over bits together are the bits of the characters; 5n mod 8 bits are left over |
| `Base32.ReencodeExactly` | src/auth/totp.rs:242-289 | re-encoding a decoded text gives it back in upper case iff fewer than five bits were left over and all are zero |
| `Totp.TruncationOffset` | src/auth/totp.rs:88 | the four bytes read all lie before the last byte |
| `Totp.CodeIsTruncatedWord` | src/auth/totp.rs:80-95 | the code is six digits that denote the big-endian word at the offset in the low nibble of byte 19, modulo 2^31 modulo 10^6 |
| `Totp.CodeDigits` | src/auth/totp.rs:88-94 | each digit of that number in its place, most significant first |
| `Totp.DigitsValue` | src/auth/totp.rs:94 | zero-padded decimal digits denote the number they were made from |
| `Totp.CheckTotp` | src/auth/totp.rs:63-76 | accepts iff the secret decodes and some step of the saturating window yields the code |
| `Totp.WindowExactly` | src/auth/totp.rs:71-75 | the times whose step is checked at `now`: from 30 seconds before the current step began to before 60 seconds after it |
| `Totp.AcceptedIff` | src/auth/totp.rs:63-76 | a code is accepted iff the secret decodes and some time of the window yields it |
| `Totp.AcceptedWithin30` | src/auth/totp.rs:63-95 | a code generated at t is accepted at every time within 30 seconds of t, for every text that decodes to the secret |
| `Totp.EnrolledSecretWorks` | src/auth/totp.rs:63-95 | and so for the base32 text of any secret |
| `Totp.OutsideWindow` | src/auth/totp.rs:71-75 | the step of a time 60 or more seconds away is not checked |
| `OtpAuthUrl.EncodeByte` | src/auth/totp.rs:297-306 | a plain byte stands for itself, any other is a percent sign and two upper-case hexadecimal digits |
| `OtpAuthUrl.EncodedByteIs` | src/auth/totp.rs:297-306 | exactly which bytes stay, and the upper-case hexadecimal digits of the others |
| `OtpAuthUrl.UrlEncode` | src/auth/totp.rs:292-309 | the loop produces the byte-wise encoding |
| `OtpAuthUrl.RoundTrip` | src/auth/totp.rs:292-309 | percent-decoding the encoding of any bytes returns them |
| `OtpAuthUrl.EncodedIsSafe` | src/auth/totp.rs:292-309 | the output holds only unreserved characters, percent signs and colons |
| `OtpAuthUrl.LabelRoundTrip` | src/auth/totp.rs:48-54 | the part before the query is the scheme, the type and a label that decodes to issuer, colon and user name |
| `OtpAuthUrl.UrlRoundTrip` | src/auth/totp.rs:46-56 | splitting the URL's query gives five fields: secret and issuer decode exactly, whatever bytes they hold, and the algorithm, digits and period are SHA1, 6 and 30 |
| `BackupCodes.VerifyBackupCode` | src/auth/totp.rs:126-140 | fails iff nothing matches; otherwise removes exactly the first match and keeps the others in order |
| `BackupCodes.FirstMatch` | src/auth/totp.rs:130-137 | the entry found matches and no earlier one does |
| `BackupCodes.UsableOncePerEntry` | src/auth/totp.rs:126-140 | a code presented n times to successive results succeeds iff the list has n matches, and then the first n are gone |
| `BackupCodes.SuccessesArePaidFor` | src/auth/totp.rs:126-140 | over every run of any codes each success removed one entry, and the successes of a set of codes never exceed the entries that set matches |
| `VncLimiter.VncConnectionLimiter.TryAcquire` | src/api/vnc.rs:357-374 | against any rival changes the loop behaves like its specification and keeps the counter within the cap |
| `VncLimiter.VncConnectionLimiter.Release` | src/api/vnc.rs:383-387 | one less, wrapping at zero like the atomic |
| `VncLimiter.AttemptOutcome` | src/api/vnc.rs:357-374 | a call is refused only at the cap; it succeeds only when the counter still held the value it loaded, and leaves that plus one; it swaps in vain no more often than others change the counter |
| `VncLimiter.AttemptIsPlayed` | src/api/vnc.rs:357-374 | the method's outcome is that of the load and swap steps of the interleaved machine, with the rivals' changes between them |
| `VncLimiter.OthersLeaveCaller` | src/api/vnc.rs:357-387 | the steps of other callers change nothing a caller sees but the counter |
| `VncLimiter.StepKeepsInv` | src/api/vnc.rs:357-387 | every atomic step of any caller keeps the counter equal to the live guards and within the cap |
| `VncLimiter.CounterIsLiveGuards` | src/api/vnc.rs:357-387 | in every interleaving of any number of callers the counter is the number of live guards and never exceeds the cap |
| `VncLimiter.DropsAndRefusals` | src/api/vnc.rs:357-387 | in every interleaving a drop finds the counter positive, and a load is refused iff exactly cap guards are live |
| `VncLimiter.FailuresArePaidFor` | src/api/vnc.rs:357-387 | one caller's failed swaps never exceed the counter changes made by the others |
| `VncLimiter.RivalChangesAreSteps` | src/api/vnc.rs:357-387 | those changes are the steps of other callers after which the counter differs |
| `VncLimiter.ConsolesUnbounded` | src/api/vnc.rs:201-208 | for every n and positive cap there is a run with n consoles open and no guard live |
| `VncLimiter.CapBoundsConsolesIff` | src/api/vnc.rs:201-208 | the cap bounds the open consoles of every run iff it is zero |
| `SequentialBreaker.CircuitBreaker.CurrentState` | src/proxmox/circuit_breaker.rs:44-59 | Closed iff nothing is stored, else by the wrapped time since the stored one |
| `SequentialBreaker.CircuitBreaker.AllowRequest` | src/proxmox/circuit_breaker.rs:62-67 | a call is allowed iff the breaker is not Open |
| `SequentialBreaker.CircuitBreaker.RecordSuccess` | src/proxmox/circuit_breaker.rs:70-73 | both cells are cleared |
| `SequentialBreaker.CircuitBreaker.RecordFailure` | src/proxmox/circuit_breaker.rs:76-85 | one more failure; the time is stored iff the threshold is reached |
| `SequentialBreaker.CellsOfTrace` | src/proxmox/circuit_breaker.rs:70-85 | for every trace and threshold the cells hold the failures since the last success and, from the threshold on, the last failure's time |
| `SequentialBreaker.BreakerFollowsTrace` | src/proxmox/circuit_breaker.rs:44-85 | Closed iff fewer than threshold failures follow the last success; otherwise Open until cooldown seconds after the last failure, then HalfOpen; for failure times in any order |
| `SequentialBreaker.CountIsStreakModulo` | src/proxmox/circuit_breaker.rs:70-85 | for every trace of any length the counter is the failures since the last success modulo 2^32 |
| `SequentialBreaker.ClosedIffShortStreak` | src/proxmox/circuit_breaker.rs:44-85 | for every trace of any length, also past a wrap of the counter, the breaker is Closed iff fewer than threshold failures follow the last success |
| `SequentialBreaker.ClockBehind` | src/proxmox/circuit_breaker.rs:44-59 | what the wrapped difference answers when the clock reads earlier than the stored time |
| `InterleavedBreaker.TimesNeverAhead` | src/proxmox/circuit_breaker.rs:44-85 | in every interleaving no stored, loaded or read time is ahead of the clock or of the latest time a failure read |
| `InterleavedBreaker.AnswersAreSafe` | src/proxmox/circuit_breaker.rs:44-67 | in every interleaving the subtraction does not underflow, and calls are allowed once cooldown has passed since the latest time any failure read |
| `InterleavedBreaker.StateCall` | src/proxmox/circuit_breaker.rs:44-59 | the steps of an uninterrupted state call answer like the sequential breaker |
| `InterleavedBreaker.SuccessCall` | src/proxmox/circuit_breaker.rs:70-73 | the steps of an uninterrupted success are the sequential one |
| `InterleavedBreaker.FailureCall` | src/proxmox/circuit_breaker.rs:76-85 | the steps of an uninterrupted failure are the sequential one |
| `InterleavedBreaker.OpeningsAreJustified` | src/proxmox/circuit_breaker.rs:76-85 | the stored time is 0 or was read by a failure whose own increment saw at least threshold increments since a reset, both steps having been taken |
| `InterleavedBreaker.ApartRunsAreLinked` | src/proxmox/circuit_breaker.rs:70-85 | in every interleaving in which no success overlaps a failure the stored time is that of the sequential breaker on the completed calls, and the counter is ahead by the failures in flight |
| `InterleavedBreaker.ApartRunsFollowTrace` | src/proxmox/circuit_breaker.rs:44-85 | in every such interleaving the sequential law holds at every moment for the calls in order of completion, and with no call in flight both cells are the sequential ones |
| `InterleavedBreaker.StaysClosedIff` | src/proxmox/circuit_breaker.rs:44-85 | from every reachable closed state, the breaker stays closed until a further failure begins iff no failure is in flight |
| `InterleavedBreaker.StaysOpenIff` | src/proxmox/circuit_breaker.rs:44-85 | from every reachable state with a time stored, it stays stored until a further success begins iff no success is half done |
| `InterleavedBreaker.SuccessCanBeOvertaken` | src/proxmox/circuit_breaker.rs:70-85 | the sequential law fails when calls overlap: from every state with a failure in flight, counted or already timed, a success can end with the breaker open and no failure counted |
| `InterleavedBreaker.FailureCanBeErased` | src/proxmox/circuit_breaker.rs:70-85 | and the other way: from every state with a success half done and the threshold one failure away, the breaker can end closed with the threshold reached |
| `InterleavedBreaker.OverlapsAreReachable` | src/proxmox/circuit_breaker.rs:70-85 | both situations arise from the start |
| `AuditQuery.AddParam` | src/audit/store.rs:289-295 | one condition on the next slot and one parameter in it |
| `AuditQuery.BuildWhere` | src/audit/store.rs:282-319 | yields the compiled clause, and the slot after its last parameter |
| `AuditQuery.PushMeans` | src/audit/store.rs:289-303 | a pushed condition keeps slots aligned and narrows the clause by exactly that test |
| `AuditQuery.WhereMeansCoded` | src/audit/store.rs:282-319 | for every filter the k-th condition refers to the k-th parameter, and the clause holds of exactly the rows that pass every set filter as coded |
| `AuditQuery.OccursIsSomewhere` | src/audit/store.rs:300-304 | the path filter passes iff the path reads as the filter from some position on |
| `AuditQuery.CodedIsDocumentedIff` | src/audit/store.rs:308-313 | the clause has the documented meaning on all rows iff there are no bounds, the two bounds leave no open interval, or a single bound sits at the end of the range |
| `AuditPaging.AuditStore.Log` | src/audit/store.rs:180-202 | appends one row with a new larger id and the duration saturated to an i64; all ids stay distinct |
| `AuditPaging.StoredColumns` | src/audit/store.rs:180-202 | every column of the row is the entry's, the duration stopping at the largest i64 |
| `AuditPaging.AuditStore.PageParams` | src/audit/store.rs:252-257 | the filter parameters followed by page size and offset, with their fallbacks |
| `AuditPaging.AuditStore.FetchPage` | src/audit/store.rs:230-265 | the statement as assembled answers the window of the sorted matching rows |
| `AuditPaging.AuditStore.RunQuery` | src/audit/store.rs:214-279 | the error cases in order, else total, page count and entries of the requested window |
| `AuditPaging.DataStatement` | src/audit/store.rs:242-257 | LIMIT and OFFSET take the two slots after the conditions, and the bound statement yields that window of the listing |
| `AuditPaging.SelectedIsMatching` | src/audit/store.rs:232-239 | the rows the compiled clause selects are the rows that pass the filters as coded |
| `AuditPaging.OrderedSorts` | src/audit/store.rs:246 | the listing is a permutation of the rows in strict (ts, id) order |
| `AuditPaging.SortedUnique` | src/audit/store.rs:246 | there is only one such arrangement, so the answer does not depend on the sort |
| `AuditPaging.DescendingIsReversed` | src/audit/store.rs:226-229 | the descending listing is the reverse of the ascending one |
| `AuditPaging.ListingIsExact` | src/audit/store.rs:214-279 | the listing holds exactly the matching rows, once each, oldest first by (ts, id) in ascending and newest first in descending order |
| `AuditPaging.ReplyIs` | src/audit/store.rs:230-279 | total is the number of matching rows, pages the least number of pages that holds them, and entry k the row of the listing k places after the offset used |
| `AuditPaging.ReplyIsErrorIff` | src/audit/store.rs:215-222 | a reply is the page error iff the page is 0, and the page-size error iff only the size is out of range |
| `AuditPaging.PageCountIsCeiling` | src/audit/store.rs:266-270 | the page count is the ceiling of total over page size |
| `AuditPaging.PagesCoverListing` | src/audit/store.rs:214-279 | pages 1 to the page count, one after another, are the whole listing |
| `AuditPaging.LaterPagesEmpty` | src/audit/store.rs:214-279 | every later page whose offset fits an i64 is empty |
| `AuditPaging.LaterPageEmptyIff` | src/audit/store.rs:230-257 | exactly which later pages are empty, and that an offset beyond i64 shows the first page again |
| `Readiness.AppState.Readiness` | src/state.rs:201-246 | the stale clusters are probed and written in order; the snapshot is the cache afterwards, stamped with the time read first |
| `Readiness.ToProbeIs` | src/state.rs:205-216 | exactly the configured clusters with no entry or one older than the TTL are probed |
| `Readiness.ProbedOnce` | src/state.rs:205-216 | each configured client is probed once if stale and not at all otherwise |
| `Readiness.LastResultStays` | src/state.rs:232-235 | the cache holds the last result written for a name, status and time |
| `Readiness.UninterruptedCall` | src/state.rs:201-246 | from every state the steps of an uninterrupted call are possible and end with what the method computes |
| `Readiness.TimePasses` | src/state.rs:201-202 | the clock may move to any later time in every state |
| `Readiness.CallAppends` | src/state.rs:201-246 | every later call with results in order extends a sequence of calls |
| `Readiness.WrittenFacts` | src/state.rs:232-235 | writing covers the probed names, leaves the others alone and only moves times forward |
| `Readiness.EveryInterleaving` | src/state.rs:201-246 | what every phase of every concurrent caller keeps, a caller reading its clock at any time, also while another one writes: the cache holds configured names only, and a caller past its write finds every cluster fresh |
| `Readiness.SnapshotsAreFresh` | src/state.rs:201-246 | in every interleaving a snapshot covers exactly the configured clusters with statuses recorded no earlier than its time minus the TTL, and is healthy iff each of them is |
| `Readiness.ReprobedIffTtlPassed` | src/state.rs:205-216 | in sequential use a cluster is probed iff more than a TTL has passed since every result recorded for it |
| `Backoff.Attempts` | src/proxmox/retry.rs:46-72 | the attempt loop over an arbitrary backoff update |
| `Backoff.Execute` | src/proxmox/retry.rs:36-72 | attempts are made until the first success or the limit, the answer is that success or the last error, the sleeps are the successive backoffs, and exactly when it panics |
| `Backoff.RescaledPanicsIff` | src/proxmox/retry.rs:59-62 | an update panics iff the product is negative or 2^64 seconds or more |
| `Backoff.GeometricIsPower` | src/proxmox/retry.rs:59-62 | the uncapped backoff after n updates is initial times the n-th power of the multiplier |
| `Backoff.CappedOnce` | src/proxmox/retry.rs:59-62 | capping after every update is capping once at the end, for any update that tracks its uncapped form |
| `Backoff.SleepsAreCappedPowers` | src/proxmox/retry.rs:46-62 | every sleep the limit allows is min(initial * m^i, max) iff initial is at most max or the limit allows no sleep |
| `Backoff.NoUpdatePanicsIff` | src/proxmox/retry.rs:46-71 | no update within the policy's own limit panics iff there is no update, or every product stays a duration, or the multiplier is above 1 and initial * m^(max_attempts - 1) is a duration |
| `Backoff.ReturnsForEveryOracleIff` | src/proxmox/retry.rs:36-72 | a call returns a success or the last error whatever the attempts yield iff the policy allows an attempt and passes that test |
| `Backoff.NeverPanicsIff` | src/proxmox/retry.rs:59-62 | the corollary for all limits: no number of updates panics iff the first backoff is 0, or the multiplier is not negative, the first product is a duration and, for a multiplier above 1, so is the cap's |
| `Backoff.DeliverWithRetry` | src/webhook/dispatcher.rs:32-65 | attempts until the first delivery or the last retry, with the time waited before each |
| `Backoff.StartsOver` | src/webhook/dispatcher.rs:34 | after 64 attempts the delays start over at one second |
| `Backoff.WaitedIsDoublingIff` | src/webhook/dispatcher.rs:32-42 | 2^a - 1 seconds have been waited before attempt a iff a is at most 64 |

## Left out

- WebAuthn ceremonies (src/auth/webauthn.rs): pending-challenge maps with the single-use pattern already proved for pre-auth tokens.
- The VNC token format (src/auth/vnc.rs): one-line facts over an abstract MAC.
- Refresh tokens issued by the LDAP, OIDC and passkey logins (src/api/auth.rs, src/api/webauthn.rs): further issue calls; the theorems about the refresh store itself hold for them, those of the login machine speak of password login only.
- Changing the two-factor setting of a user during a run (src/api/auth.rs): the set of enrolled users is fixed.
- Proxmox HTTP calls, JSON, TLS, JWT, bcrypt, HMAC and SHA internals: libraries or field copying.
- `UserStore`, role checks, the rate limiter, dashboards, plugins, metrics and the user interface: one-branch facts, third-party algorithms or input and output.
- Weak-memory effects of relaxed orderings, clock jumps and poisoned locks: excluded by assumption.
- Conditions as SQL text: they are modelled as subject and slot, not as the string that is joined with AND; `map_row` and SQLite errors are not modelled.
- Rounding of f64 seconds in the retry policy: durations are exact reals.
- The second store call of a handler is atomic with the rest of that handler's work after it; the user table is read once per handler.
