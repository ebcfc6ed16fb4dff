# A verified model of the Ziti SSH host and client

The repository lets a Linux host accept SSH sessions from Ziti identities. The host daemon gives each
connecting identity a Linux account while it has a session, and takes the account away when the last session
ends. This project models the parts of it that keep state over long runs, and the algorithms they rely on,
and proves what they promise. Where a promise made in a comment or in the documentation does not hold of
the code, the model follows the code, a lemma shows an input or a run with which the promise fails, and
another says exactly when it holds.

## The parts

**Accounts (`Protocol*.dfy`, `Serial*.dfy`, `UserManager.dfy`, `HostOs.dfy`).** The user manager is modelled twice.

* `Protocol` is the concurrent program: one program counter per connection, one atomic step per critical
  section of the global mutex, one per operating-system command, one for taking and one for giving back a
  user's mutex. A run is any sequence of labels, a label names the thread and what the system answers it, so
  every interleaving and every pattern of failing commands is covered. `ProtocolSafety` proves the
  invariants step by step, `ProtocolRuns` states them for all runs, `ProtocolEnds` proves termination of a drain,
  `ProtocolDerived` follows usernames from identities into the state file.
* `ProtocolEvents` names the steps that bring something about and those that end it, and says when the former
  have the last word in a run. With it `ProtocolPermits` decides whose groups and whose sudoers rule an account
  has, `ProtocolFile` which usernames the state file lists, and `ProtocolCrash` what the sweep after a crash at any
  point of a run takes away and leaves - each in every reachable state, whatever commands failed.
* `UserManagers` is the class the daemon uses, proved against the specification functions in `Serial`.
  `ProtocolSerial` proves those functions to be the net effect of an uninterrupted stretch of one
  connection's steps of `Protocol`; `SerialLaws` proves what they promise over all sequences of operations.
* `ProtocolLimits` holds runs in which a promise fails once connections overlap, and `ProtocolGuarantee` decides for
  every admitted connection, in every reachable state, two things: whether EnsureUser returns nil to it only over
  an account, and whether that account then stays while the connection is being proxied.

The state carries a history of six sets that no step reads: usernames whose deletion failed, whose sudoers
file could not be removed, whose sudoers file a rollback left behind, whose account was missing or was
taken away under a session, for which a teardown has run, and whose last session was rolled back. With them the results about what is left on the system are equivalences instead
of implications from "nothing ever failed"; the latter follow (`NoOrphanAccounts`, `NoLeakedSudoers`).

**Rate limiting (`RateLimit.dfy`, `RateBounds.dfy`, `RateExact.dfy`).** Token buckets over reals in a map from which a sweep evicts
idle entries. Eviction is invisible in every run if and only if one idle TTL refills a bucket. Exactly which calls
are admitted is said without buckets: those that, since each earlier admission of the identity, keep the
admissions within burst plus rate times elapsed time.

**Permissions, usernames and the config (`Permissions.dfy`, `Username.dfy`, `ConfigLoad.dfy`).** The choice among glob
patterns, the normal form of derived usernames, and the collision check: for any set of keys, what it checks is exactly
the condition under which no run of `Protocol` refuses one of its literal keys for another. It is made for the
config of each service alone; over all services, which share one user manager, more is needed
(`SeparateChecksFitIff`).

**Trusted keys (`TrustedKeys.dfy`).** The in-place sort, the order-independent comparison of key files, the
deduplication and the refresh, which is a fixpoint.

**Client side and files (`Socks5.dfy`, `TreeCopy.dfy`, `AtomicFile.dfy`).** The SOCKS5 handshake of RFC 1928 on a byte stream
that arrives in arbitrary pieces, recursive copies in both directions, and the replacement of a file on a
file system that may crash between any two system calls.

`Text.dfy` and `Options.dfy` hold what several parts share; `TextLaws.dfy` says what trimming and splitting come to for any text,
and `SudoersRules.dfy` which sudoers rules are accepted.

## Where the code differs from its comments and documentation

* "By the time EnsureUser returns nil, the Linux user exists" (`host/host.go:493-494`): a later caller can take the user
  mutex before the first caller's useradd (`OvertakingCaller`). Exactly (`ReturnGuarantee`): a first session always
  returns nil over an account; a later one does if and only if the account is there when it is admitted and,
  with cleanup on, no release of the username has yet to run its teardown. That the account then stays is a
  stronger matter, since the teardown of an earlier session can delete the account a new one has just found
  (`LateTeardown`); `AccountGuarantee` gives its exact condition.
* "Groups and sudoers are only applied on the first session" (`host/host.go:456-458`; also ARCHITECTURE.md, first connection
  wins): the code applies them on every connection, in the order in which connections get the user mutex. The
  groups are those of the last connection whose usermod found the account (`GroupsInForce`, `SettledGroups`), the
  sudoers file is that of the last step to install or remove it, and a first session without a rule does
  neither (`RuleInForce`). So an account can run with one connection's groups and another's rule
  (`MixedPermissions`). For connections that do not overlap the latest one wins (`SerialRuns`).
* ARCHITECTURE.md describes `usermod -aG` for non-empty groups; the code runs `usermod -G` always, so the groups
  are exactly the ones asked for (`GroupsInForce`).
* "No risk of divergence between the file and the map" (`host/host.go:883-886`): a username can be listed without a
  session because an older snapshot was written last (`StaleFileAtRest`), because its last release was refused by
  userdel and did not write (`StaleAfterRefusal`), because its useradd failed and the rollback did not write
  (`StaleAfterRollback`), or because a write failed; and a username in session can be missing because an older
  snapshot was written last (`ForgottenByCrash`), its own write failed, or its first connection was rolled back
  while others went on. There are no other causes: `FileExactly`, `FileIsSessionsIff`, `FileAtRest`.
* "CleanupOrphans can remove it after a crash" (`host/host.go:460-461`): not between useradd and the first write
  (`CrashBeforeWriting`), nor if the username is missing from the file (`CrashForgetsAccount`). Exactly, for every
  username in every reachable state (`SweepAfterCrash`): an account goes if and only if the last lines installed
  had it and it can be deleted; `ListedExactly` and `RecordedOrNot` say when they had it.
* A rollback after a failed useradd forgets a sudoers file that a later caller wrote (`StrandedSudoers`); `AtRest`
  says exactly which files are left.
* A refresh whose sshd reload failed after the file was replaced is not repeated while the keys stay
  (`FailedReloadIsNotRetried`); the next refresh acts if and only if the keys differ (`NextRefreshActsIff`). After a
  refresh without error that found nothing to change, new connections are checked against the cluster's keys
  if and only if sshd is socket-activated, so that each connection reads the file, or the keys are those of
  the last successful reload (`NoErrorMeansLoadedIff`).
* The collision check leaves only glob patterns to the check at connection time (`cmd/ziti-ssh-host/main.go:721-723`);
  but it is made per service, and two services with accepted configs can hold identities that are refused for
  each other (`SeparateChecksMiss`).
* The resolver's documentation ranks `"*"` last among all matching patterns; it matches exactly the identities
  without a slash (`StarMatches`).

## Model

| member | source | states |
|---|---|---|
| ProtocolSafety.KeepsConserved | host/host.go:471-483 | every step of every connection keeps sessions[u] equal to the number of connections counted for u, with no stored zero |
| ProtocolSafety.KeepsOwned | host/host.go:466-477 | every step keeps owners and sessions on the same keys and all counted connections with the recorded owner |
| ProtocolSafety.KeepsLocked | host/host.go:478-496 | every step keeps each user mutex held by exactly the thread inside its region |
| ProtocolSafety.KeepsOneFirst | host/host.go:472-477 | at most one connection per username is ever between its first admission and its successful useradd |
| ProtocolSafety.KeepsNoOrphan | host/host.go:612-636 | with cleanup on, an account that no teardown is about to remove belongs to a session whose useradd is behind it, or was there before, or resisted userdel |
| ProtocolSafety.KeepsNoLeak | host/host.go:612-628 | the same for sudoers files, in either cleanup mode |
| ProtocolSafety.KeepsInPlace | host/host.go:485-546 | a username in session with its first useradd behind it has its account unless something undercut it |
| ProtocolSafety.SoleHolder | host/host.go:588-601 | a count of one means one counted connection |
| ProtocolRuns.SafeRun | host/host.go:462-636 | all invariants hold after every run from every initial system |
| ProtocolRuns.Conservation | host/host.go:588-603 | in every reachable state the count is the number of live connections and no release finds an untracked username |
| ProtocolRuns.ExclusiveOwnership | host/host.go:466-477 | in every reachable state the connections of one username are all of the recorded owner |
| ProtocolRuns.MutualExclusion | host/host.go:484-525 | two threads inside the same user's mutex are one thread |
| ProtocolRuns.CommandsStayHome | host/host.go:485-628 | only a thread inside a user's mutex changes the system, and only at its own username or the state file; a mutex is never removed |
| ProtocolRuns.DeadlockFree | host/host.go:484-610 | as long as a connection is unfinished some thread can move, in every reachable state |
| ProtocolRuns.BoundedSteps | host/host.go:227-267 | no connection takes more than fourteen steps |
| ProtocolRuns.AtRest | host/host.go:586-636 | when all connections are finished the books are empty, the mutexes are free, and what is left on the system is exactly what could not be removed, was stranded, or was there from the start and never ended a session |
| ProtocolRuns.NoOrphanAccounts | host/host.go:612-636 | with cleanup on and userdel working, no account of the daemon's is left once all connections are finished, whatever else failed |
| ProtocolRuns.NoLeakedSudoers | host/host.go:508-628 | in either mode, if useradd succeeds and removals work, no sudoers file of the daemon's is left |
| ProtocolRuns.AccountUnderSession | host/host.go:493-546 | under a live session past its first useradd, the account exists exactly when nothing undercut it |
| ProtocolRuns.StateFileIsSnapshot | host/host.go:887-895 | every installed state file is the whole session key set of a state the run passed through |
| ProtocolEnds.RunsAreShort | host/host.go:462-636 | a run without new connections is no longer than a weight of its first state |
| ProtocolEnds.EveryScheduleFinishes | cmd/ziti-ssh-host/main.go:1029-1048 | while draining, every schedule is bounded, and it is stuck exactly where all connections are finished |
| ProtocolDerived.UsersAreDerived | cmd/ziti-ssh-host/main.go:973-998 | every connection's username is the derived one and survives being written and read |
| ProtocolDerived.OwnersDerive | host/host.go:466-477 | the recorded owner of a username is an identity it derives from |
| ProtocolDerived.StateFileReadsBack | host/host.go:887-944 | whatever the interleaving and the failures, scanning an installed state file gives the usernames in session in one state of the run, each once |
| ProtocolSerial.EnsureIsARun | host/host.go:462-581 | an uninterrupted EnsureUser of the protocol has the result and leaves the books and system of the serial operation, for every combination of answers |
| ProtocolSerial.ReleaseIsARun | host/host.go:586-636 | the same for ReleaseUser |
| ProtocolLimits.OvertakingCaller | host/host.go:483-524 | a run in which EnsureUser has returned nil and the account does not exist |
| ProtocolLimits.LateTeardown | host/host.go:600-628 | a run in which a waiting release deletes the account of a new session |
| ProtocolLimits.StrandedSudoers | host/host.go:508-544 | a run that ends with nobody in session and a sudoers file left by a rollback |
| ProtocolLimits.StaleFileAtRest | host/host.go:887-895 | a run in which every command succeeds and the file ends up listing a deleted username |
| ProtocolLimits.StaleAfterRefusal | host/host.go:623-628 | a run without overlapping writes that ends with an entry because the second release is refused and does not write |
| ProtocolLimits.StaleAfterRollback | host/host.go:534-545 | a run that ends with an entry of a username that never had an account |
| ProtocolLimits.ForgottenByCrash | host/host.go:887-895 | a run in which every command works and a username in session is missing from the file |
| ProtocolLimits.MixedPermissions | host/host.go:500-571 | a run in which an account gets one connection's groups and another's sudoers rule |
| ProtocolPermits.GroupsInForce | host/host.go:500-517 | in every reachable state, whatever failed: the groups are those of the last usermod that found the account, or none since its useradd, or the original ones |
| ProtocolPermits.RuleInForce | host/host.go:508-571 | in every reachable state a sudoers rule is in force iff the last step to install or remove the file installed it |
| ProtocolPermits.InstalledAreAdmissible | host/host.go:702-731 | in every reachable state a sudoers file not there from the start is one harmless line |
| ProtocolPermits.AdmissibleIsInstalled | host/host.go:508-571 | a harmless rule is in force after its connection's step if the command works |
| ProtocolPermits.SettledStep | host/host.go:552-562 | with usermod working, an account comes to be settled only by a usermod on it |
| ProtocolPermits.SettledGroups | host/host.go:500-562 | with usermod working, the groups of an account that serves a connection are those of the last connection whose usermod found it |
| ProtocolFile.StepTracks | host/host.go:887-895 | every step keeps a username listed as its session says, except for the named causes of staleness and absence |
| ProtocolFile.FileExactly | host/host.go:883-895 | in every reachable state, for a username with no connection on the way to a write: in session it is listed iff it is not missing, out of session iff it is stale |
| ProtocolFile.FileIsSessionsIff | host/host.go:883-895 | with nobody on the way to a write, the file lists exactly the sessions iff nothing is stale and nothing is missing |
| ProtocolFile.FileAtRest | host/host.go:883-895 | when all connections are finished the file lists exactly the stale usernames |
| ProtocolFile.InstalledLate | host/host.go:888-894 | lines that list a username out of session, or omit one in session, were snapshotted when that was otherwise |
| ProtocolFile.FileKeepsUp | host/host.go:883-895 | if writes work and are not overtaken, nothing is rolled back and no teardown is refused, the file lists exactly the sessions |
| ProtocolFile.ListedExactly | host/host.go:887-895 | in every reachable state, for every username, on the way to a write or not: listed iff the last lines installed had it, or none were and it was listed at the start |
| ProtocolCrash.SweepAfterCrash | host/host.go:644-687 | a crash in any reachable state and a restart, for every username: its account and sudoers file go iff the last lines installed had it and they can be removed; it stays listed iff they had it and its account is not deleted |
| ProtocolCrash.RecordedOrNot | host/host.go:883-895 | with nobody on the way to a write, not recorded in session means missing, recorded out of session means stale, and conversely |
| ProtocolCrash.CrashBeforeWriting | host/host.go:526-578 | a reachable state, every command having worked and nothing written yet, whose account no sweep removes or lists |
| ProtocolCrash.SweepLeaves | host/host.go:460-461 | an account survives a sweep able to delete it iff the last lines installed did not have it, and then it is an old one, had resisted userdel, belongs to a connection on the way to a write, or is missing from the file |
| ProtocolCrash.CrashForgetsAccount | host/host.go:460-461 | a reachable state, both usernames in session, from which no sweep removes the second one's account |
| ProtocolGuarantee.SecuredForever | host/host.go:485-546 | a connection that entered safely keeps its account in every continuation while it is counted |
| ProtocolGuarantee.FirstSessionIsMade | host/host.go:522-578 | in every reachable state a first session between its useradd and its return has its account |
| ProtocolGuarantee.ReturnsWithout | host/host.go:484-520 | whatever keeps a later session from finding its account, a continuation in which EnsureUser returns nil to it without one |
| ProtocolGuarantee.ReturnGuarantee | host/host.go:493-494 | for every admitted connection in every reachable state: EnsureUser returns nil only over an account, in all continuations, iff it is a first session, or the account is there and with cleanup on no teardown is pending |
| ProtocolGuarantee.WaysIn | host/host.go:484-628 | a connection that did not enter safely loses its account in some continuation |
| ProtocolGuarantee.AccountGuarantee | host/host.go:484-628 | the stronger property: the account is there whenever the connection is being proxied, in all continuations, iff it entered safely |
| UserManagers.UserManager.constructor | host/host.go:433-441 | a new manager has no sessions, owners or mutexes |
| UserManagers.UserManager.EnsureUser | host/host.go:462-581 | result, books and system are those of Serial.Ensure; existing mutexes are never replaced; a first session writes the new key set |
| UserManagers.UserManager.ReleaseUser | host/host.go:586-636 | result, books and system are those of Serial.Release, in both cleanup modes and when userdel fails |
| UserManagers.UserManager.SyncStateFile | host/host.go:887-895 | the file becomes the session keys, each once, in some order |
| UserManagers.UserManager.WriteLines | host/host.go:901-909 | joining with newlines and ending with one gives one terminated line per username |
| UserManagers.UserManager.CleanupOrphans | host/host.go:644-687 | the startup sweep over the scanned usernames, each with its own answers; failures stay listed; a missing or unreadable file changes nothing |
| SerialLaws.KeepsSerial | host/host.go:462-636 | every serial operation keeps accounts, groups, sudoers files and the state file in step with the sessions |
| SerialLaws.SerialRuns | host/host.go:462-636 | after any sequence of operations: in session means account, groups and sudoers as last asked for, else no sudoers file and with cleanup on no account; the file lists the sessions |
| SerialLaws.FailedUserAddRestores | host/host.go:534-545 | a failed first useradd gives back sessions, owners and system exactly |
| SerialLaws.EnsureTells | host/host.go:462-581 | refused iff another identity owns the username, failed iff it is the first session and useradd fails, both leaving everything as it was; otherwise counted for the caller, other usernames untouched |
| SerialLaws.EnsureInstallsAdmissible | host/host.go:508-571 | only its own username's sudoers file changes, and only to its own rule if that is one harmless line; and such a rule is installed |
| SerialLaws.PermitTells | host/host.go:500-571 | exactly when groups and sudoers file change and to what: a stale rule is removed by later sessions only, an invalid rule or a failing command leaves the file alone |
| SerialLaws.ReleaseTells | host/host.go:586-636 | each result in terms of the sessions and the account before and after: nothing to release, sessions left over, last session gone with the account deleted or kept, deletion refused with the file not written |
| SerialLaws.SweepIsExact | host/host.go:657-687 | the sweep deletes exactly the listed accounts and sudoers files it can and retains exactly the failed deletions in order |
| SerialLaws.SweepWithoutCleanup | host/host.go:665-671 | with cleanup off nothing is deleted and nothing is retained |
| SerialLaws.RecoveryAfterCrash | host/host.go:644-687 | a crash between serial operations and a restart remove exactly the accounts and sudoers files of the usernames in session, as far as they can be removed, and keep listed exactly those whose deletion failed |
| Text.LinesInvertUnlines | host/host.go:657-664 | scanning, trimming and skipping empty lines gives back the lines written |
| TextLaws.TrimGivesTheCore | cmd/ziti-ssh-host/main.go:645-653 | trimming a core with white space around it gives the core |
| TextLaws.HasACore | host/host.go:706-707 | every text is its trimmed core with white space around it |
| TextLaws.PaddedLine | host/host.go:659-664 | a line with anything but white space counts, without the white space around it |
| TextLaws.BlankLine | host/host.go:661-663 | a line of white space does not count |
| TextLaws.LastLine | cmd/ziti-ssh-host/main.go:645-653 | a last line counts without a newline as well |
| TextLaws.LinesAreWritten | host/host.go:906-909 | written lines are the lines one after the other, each with one newline |
| SudoersRules.ValidIffAdmissible | host/host.go:702-717 | a rule is accepted iff it has no newline or carriage return and what follows its leading white space begins no comment and none of the six directives |
| RateLimit.Map.constructor | internal/ratelimit/ratelimit.go:67-73 | a new limiter has no entries |
| RateLimit.Map.Allow | internal/ratelimit/ratelimit.go:86-97 | a new identity starts with a full bucket, one token is taken if there is one, the entry is stamped either way, and all others are as before |
| RateLimit.Map.Evict | internal/ratelimit/ratelimit.go:100-109 | in any iteration order exactly the entries idle for longer than the TTL go, the others unchanged |
| RateLimit.CallUsesLevel | internal/ratelimit/ratelimit.go:86-97 | a call is admitted exactly when its identity has a token, takes just that one, and leaves all others' levels alone |
| RateLimit.SameLevelsSameVerdicts | internal/ratelimit/ratelimit.go:86-109 | if rps times idleTTL is at least burst, the evicting limiter answers every run like one that never evicts |
| RateLimit.EvictionNoticed | internal/ratelimit/ratelimit.go:67-109 | otherwise some run with sweeps exactly every half TTL is answered differently |
| RateLimit.EvictionInvisibleIff | internal/ratelimit/ratelimit.go:67-109 | eviction is invisible in every run iff rps times idleTTL is at least burst, whether the sweeps come every half TTL or at any times |
| RateBounds.RateBound | internal/ratelimit/ratelimit.go:59-67 | without eviction any window of length w admits at most burst + rps w requests of an identity |
| RateBounds.RateBoundWithEviction | internal/ratelimit/ratelimit.go:59-109 | with eviction at most burst + burst / idleTTL w + rps w, whatever the rate and the TTL |
| RateBounds.BoundsInEveryWindow | internal/ratelimit/ratelimit.go:59-109 | both bounds for every window of every run from the empty limiter |
| RateBounds.OthersDoNotMatter | internal/ratelimit/ratelimit.go:86-97 | an identity's answers are the same when everybody else's calls are left out |
| RateExact.LevelIsLeastLeft | internal/ratelimit/ratelimit.go:86-97 | what an identity has is the least allowance left, counted from each of its earlier admissions |
| RateExact.AllowsExactly | internal/ratelimit/ratelimit.go:59-97 | after any run, without eviction or with rps times idleTTL at least burst, a call is admitted iff since each earlier admission the admissions, this one included, are at most burst + rps times the time since |
| RateExact.WaitRefills | internal/ratelimit/ratelimit.go:86-97 | with a tokens at t, a call at t' finds a + rps (t' - t), at most burst, and is admitted iff that is at least one |
| Permissions.PatternSpecificity | host/host.go:134-147 | the number of characters before the first star or question mark, and the number of all characters that are neither |
| Permissions.Resolve | host/host.go:72-116 | for every iteration order: exact key, else a lexicographically most specific matching pattern, else the fallback; among equals the winner of that order |
| Permissions.ResolvesInNumbers | host/host.go:77-116 | for an identity that is no key: the entry of a matching pattern such that every other has a shorter prefix, or one as long and no more literals; the fallback iff no key with a star or question mark matches |
| Permissions.StrictMaximumWins | host/host.go:103-108 | a pattern strictly ahead in prefix, then literals, wins in every order |
| Permissions.PatternHasWildcard | host/host.go:84-87 | a key is a pattern iff it has a star or a question mark anywhere |
| Permissions.UniqueBestDecides | host/host.go:103-108 | a unique most specific match is what every order returns |
| Permissions.WinnerIsFirstBest | host/host.go:83-108 | the winner is the first most specific match the order comes to |
| Permissions.TiesAreOpen | host/host.go:103-108 | a pattern is most specific iff some iteration order makes it the winner |
| Permissions.MatchBoundsSpecificity | host/host.go:134-147 | a matching pattern's literal prefix starts the identity, and it has no more literals than the identity has characters |
| Permissions.WinnerExtendsOthers | host/host.go:83-112 | the winner's literal prefix extends that of every other matching pattern |
| Permissions.StarMatches | host/host.go:65-67 | "*" matches exactly the identities without a slash |
| Permissions.LiteralThenRest | host/host.go:88 | literal characters stand for themselves |
| Permissions.QuestionThenRest | host/host.go:88 | a question mark stands for one character other than the slash |
| Permissions.StarThenRest | host/host.go:88 | a star stands for any run of characters other than the slash |
| Username.DeriveUsername | ca/ca.go:103-130 | the loops compute the derivation: lower-case, replace, prefix a digit, cut at 32 |
| Username.LengthAndPrefix | ca/ca.go:97-98 | the length of the result, at most 32, and the z before a leading digit |
| Username.CharacterByCharacter | ca/ca.go:95-96 | every character of the result: the lower-case form if allowed, else an underscore |
| Username.DeriveIsNormal | ca/ca.go:101-102 | every result is at most 32 characters of the allowed set, starts with no digit, and is empty only for the empty identity |
| Username.NormalIffFixed | ca/ca.go:93-102 | the normal forms are exactly the fixed points, so deriving twice is deriving once |
| Username.DerivedIsPlain | ca/ca.go:93-102 | a derived username survives the state file |
| ConfigLoad.LoadPermissionsConfig | cmd/ziti-ssh-host/main.go:704-744 | in any iteration order: rejected for a bad rule iff some rule is not one harmless line, accepted iff rules are good and no two keys without star and question mark derive to one username; every reported pair collides, and of every colliding pair one is reported |
| ConfigLoad.LiteralKeysNeverClash | cmd/ziti-ssh-host/main.go:718-741 | if literal keys derive to different usernames, no reachable state refuses one because of another |
| ConfigLoad.CollidingKeysClash | host/host.go:466-470 | of two colliding literal keys the second to connect is refused in some run |
| ConfigLoad.CollisionCheckFits | cmd/ziti-ssh-host/main.go:718-741 | literal keys derive to different usernames iff no run of the ownership protocol ends in such a refusal |
| ConfigLoad.SeparateChecksFitIff | cmd/ziti-ssh-host/main.go:886-902 | with every service's config accepted, no run refuses a literal key of any service for another iff no two services hold colliding ones |
| ConfigLoad.SeparateChecksMiss | cmd/ziti-ssh-host/main.go:886-902 | two accepted configs, of one identity each, and a run in which one identity is refused for the other |
| TrustedKeys.SortStrings | cmd/ziti-ssh-host/main.go:1175-1181 | the array ends up sorted and a permutation of what it was |
| TrustedKeys.FirstDifferenceDecides | cmd/ziti-ssh-host/main.go:1177 | the order is lexicographic |
| TrustedKeys.SortedIsUnique | cmd/ziti-ssh-host/main.go:635-641 | two sorted arrangements of the same strings are equal |
| TrustedKeys.NonEmptyLines | cmd/ziti-ssh-host/main.go:645-653 | the trimmed non-empty lines in order |
| TrustedKeys.SshPubKeySetsEqual | cmd/ziti-ssh-host/main.go:629-643 | true if and only if the two files have the same trimmed non-empty lines with the same multiplicities |
| TrustedKeys.PaddingDoesNotMatter | cmd/ziti-ssh-host/main.go:645-653 | white space around lines and blank lines make no difference to the comparison |
| TrustedKeys.CollectClusterCAs | cmd/ziti-ssh-host/main.go:379-424 | the first occurrence of each convertible key, in controller order |
| TrustedKeys.OneEntryPerKey | cmd/ziti-ssh-host/main.go:391-404 | the collected keys are exactly those some controller presents, none twice |
| TrustedKeys.FirstsGrow | cmd/ziti-ssh-host/main.go:383-417 | keys of later controllers are added at the end |
| TrustedKeys.SameCAsSameLines | cmd/ziti-ssh-host/main.go:379-435 | clusters presenting the same keys yield the same lines up to order |
| TrustedKeys.TrustStore.Refresh | cmd/ziti-ssh-host/main.go:502-574 | result and file are those of the specification, a reload succeeds exactly when the result is Updated, the keys in use are then the cluster's, and writes and reloads happen exactly when the set changed |
| TrustedKeys.RefreshTells | cmd/ziti-ssh-host/main.go:502-574 | when each result occurs: no controllers, no key given, file unreadable, lines the same, write failed, reload failed, updated; and what the file is then |
| TrustedKeys.RefreshIsAFixpoint | cmd/ziti-ssh-host/main.go:502-525 | seeing the same keys again, in any order and from any controllers, a refresh writes and reloads nothing |
| TrustedKeys.SameTextIffSameCAs | cmd/ziti-ssh-host/main.go:379-435 | two written files have the same lines iff the clusters present the same keys |
| TrustedKeys.NextRefreshActsIff | cmd/ziti-ssh-host/main.go:502-574 | after any refresh that compared, a failed reload included, the next one leaves everything alone iff the keys are the same, and else updates |
| TrustedKeys.SshdHasTheFileIff | host/host.go:348-397 | after any sequence of refreshes the keys in use are those in the file iff sshd is socket-activated or the last cluster written and the last one loaded present the same keys |
| TrustedKeys.NoErrorMeansLoadedIff | cmd/ziti-ssh-host/main.go:522-574 | after a refresh without error the cluster's keys are in use: always if it updated, and if it found nothing to change iff sshd is socket-activated or they are those of the last successful reload |
| TrustedKeys.FailedReloadIsNotRetried | cmd/ziti-ssh-host/main.go:522-574 | for every change of keys: a failed reload is reported once, the next refresh returns no error, and the new keys are in use iff sshd is socket-activated |
| TrustedKeys.OverlappingRefreshes | cmd/ziti-ssh-host/main.go:811-846 | a refresh that another overtakes puts the older cluster's keys back; the newer ones are in the file iff they are the same |
| Socks5.Conn.ReadFull | client/ssh.go:654-657 | exactly n bytes of the stream however it is split, or nothing and a drained stream |
| Socks5.HandleSocks5Conn | client/ssh.go:649-751 | bytes written, outcome and bytes left for the relay depend only on the concatenated stream, and are read off its bytes: the answer 5 0, the destination and the ten bytes of each reply; a failing method answer ends the connection, a failing reply does not |
| Socks5.HandleRequest | client/ssh.go:672-760 | the same for the request: relayed with status 0 or dial failed with status 5 iff the bytes are a complete CONNECT, status 7 for another command, 8 for another address type, and otherwise no reply |
| Socks5.ReadAddress | client/ssh.go:692-727 | the three address forms and what follows them |
| Socks5.RepliesByByte | client/ssh.go:672-760 | outcome, reply and what is left, from the bytes of the request at their positions |
| Socks5.GreetingByByte | client/ssh.go:654-666 | a greeting is complete iff its version is 5 and as many methods follow as it announces |
| Socks5.PortRoundTrip | client/ssh.go:729-734 | two bytes and a 16-bit port are inverse to each other |
| Socks5.DecodeInvertsEncode | client/ssh.go:649-734 | every well-formed greeting and CONNECT request (RFC 1928, sections 3 to 5) is decoded to its destination, leaving exactly what follows the frame |
| Socks5.AcceptedIsEncoding | client/ssh.go:649-734 | every accepted stream is such a frame followed by what is left |
| AtomicFile.FileSystem.AtomicWriteFile | config/atomic.go:30-69 | at every crash point the destination is wholly old or wholly new; an error iff a call up to the rename fails, invisible, and removing the temporary file if removal works; success is durable if the directory sync worked |
| AtomicFile.FileSystem.HostAtomicWriteFile | host/host.go:303-346 | the same crash points; an error iff any call fails; success is durable; an error can leave new content only when the directory sync failed |
| AtomicFile.FileSystem.WriteStateFile | host/host.go:901-944 | the same crash points; an error iff a call up to the rename fails, leaving the old file |
| AtomicFile.StagingIsHarmless | config/atomic.go:44-55 | until the rename no reader can tell, before or after a crash |
| AtomicFile.RenameInstalls | config/atomic.go:57-60 | renaming a synced file leaves the old bindings or the complete new content |
| AtomicFile.SyncedIsDurable | host/host.go:335-343 | after the directory sync only the new content can be found |
| TreeCopy.JoinPlain | client/sftp.go:298-299 | joining an ordinary name adds exactly one component |
| TreeCopy.Dots | client/sftp.go:298-299 | a dot stays, two dots leave the directory |
| TreeCopy.JoinIsStepwise | client/sftp.go:298-299 | what is on the two sides of a slash is followed one after the other |
| TreeCopy.PlainIffOneComponent | client/sftp.go:373-381 | safeName accepts exactly the names without a backslash that add one component wherever they are joined |
| TreeCopy.UploadDir | client/sftp.go:145-176 | on success every chain of names that leads to a file in the listing leads to a file of that content, every chain that leads to a directory leads to one, everything above is a directory and nothing else has changed; a fresh target and no errors on either side mean success |
| TreeCopy.DownloadDir | client/sftp.go:277-317 | the same on success; for any listing, successful or not and whatever fails on either side, only accepted single components are created below the target and nothing else changes; into a fresh target without errors it succeeds exactly when all names are accepted |
| TreeCopy.DownloadFile | client/sftp.go:319-366 | any target path: missing parents are made, then the file holds the content; errors leave at most parents and part of the file |
| TreeCopy.CopyIsCopied | client/sftp.go:157-169 | what copying entry by entry creates is what the chains of names lead to |
| TreeCopy.FreshCopyLists | client/sftp.go:145-176 | a copy into a fresh directory is listed as the original listing |
| TreeCopy.ThereAndBack | client/sftp.go:145-317 | upload then download into fresh directories rebuilds every name, kind and content, and the listing is accepted exactly when every original name is |

## Left out

- Operating-system commands (useradd, usermod, userdel, visudo, loginctl, pgrep, systemctl): each is an arbitrary success or failure on an abstract system; a failing useradd leaves no account behind.
- deleteUser's timed escalation of signals: it is one step that removes the sudoers file and then the account.
- Sudoers files: the model keeps the rule per username; staging, mode and the username at the start of the line are determined by it.
- Logging, including the read of the sessions map in a log call without the global mutex; no claim about data races is made.
- A crash falls between two steps of the interleaved model; a crash inside the replacement of the state file is AtomicFile's subject.
- The initial state of the interleaved model has no connections and any system; the startup sweep is modelled in the serial class only, as it runs before the first connection.
- Connections without a caller identity and those of an empty derived username run no hook and are not part of the protocol; an overlong drain is cut off by the daemon and leaves the run unfinished.
- Dial and copy of the proxied bytes: the step from being proxied to the release may be taken at any time.
- The scanner's limit of 64 KiB per line: state-file lines hold at most 32 characters.
- UserManagers.UserManager.EnsureUser: the mutexes are serial numbers here, since serial callers never wait; Protocol models the waiting.
- The rate limiter library: a bucket over reals with one clock reading per Allow; float rounding, reservation and waiting are not modelled, nor is sharing of an entry by pointer.
- The sweep's ticker: the results about any sweep times cover one that is late or skips a beat; the exact one is the one the equivalence is also stated for.
- TrustedKeys.SshdHasTheFileIff: sequences of refreshes run one at a time; the event listener's and the poll's may overlap, which OverlappingRefreshes covers for a pair.
- Whether sshd is socket-activated does not change between refreshes, and what validates a configuration is not modelled.
- Permissions.MatchBoundsSpecificity: for patterns without classes and escapes; Resolve itself takes the matcher as a parameter, including its error result.
- Unicode: lower-casing is a function on characters of which only its effect on the kept characters is used; a character is a code point, and trimming removes the code points of the Unicode white-space property.
- Key bytes and certificates: a key is its encoding and its authorized_keys line; equal encodings are the same key.
- The rename inside refreshTrustedCAs is not crash-modelled: it does not sync, so nothing is claimed of it after a crash.
- The log of added and removed keys in refreshTrustedCAs, and the controller URL kept for it.
- SOCKS5 method choice: the handler always answers 0x00 without looking at the offer, and so does the model; the text form of addresses and the relay itself are left out.
- TreeCopy.ThereAndBack: links, timestamps, permissions and progress are not part of a tree; names with a backslash upload but do not download, which is the stated equivalence.
- TreeCopy.FileSystem.MkdirAll: a failing call makes no directory; a failing file copy leaves an empty file.
- Temporary file names are given and unused; opening the directory for its sync is one flag with the sync another.
- Ziti SDK, controller client, TLS, OIDC, MFA, command lines, agent forwarding, PTY handling, certificate issue and refresh: foreign calls or user interface.
- EnvOrFlag, forward specifications and user@host splitting, PersistZtAPIs, formatBytes: only easy members.
