# Control Center: a verified model

Control Center is a small Go service with a shell updater. This project models its stateful core in Dafny and proves what
holds over whole runs: with writes that fail, crashes between any two steps, concurrent requests, rollbacks and reopenings.

- **State store** (`StateModel`, `Accounts`, `StateMachine`, `StateStore`). Every mutation changes two documents in memory, bumps a
  `uint64` revision (wrap-around written out) and then replaces `secrets.json` and `state.json`, in that order. The machine
  keeps the log of mutations behind memory and behind each file; acknowledged changes, `state.json`, `secrets.json` and memory
  are always prefixes of one another in this order. The class `Store` carries the methods, each of which is one call of the
  machine. A failed call is not a call without effect: what it leaves, and when that becomes durable, is stated exactly.
  `Accounts` reads every account, and who is let in, off the changes that were made.
- **Operation store** (`OperationsModel`, `OperationsStore`), with pruning under any order of ties, and **both stores together**
  (`Handlers`, `HandlerRuns`): concurrent requests, each of which starts an operation, calls the state store and finishes the operation,
  and processes such as `bootstrap-admin` that call the state store without a request. `HandlerRuns` says exactly what a record
  tells about the state store: when it shows success, and when the change of a failed call becomes durable.
- **SemVer and the updater** (`SemVer`, `SemVerGrammar`, `SemVerOrder`, `Release`, `Updater`, `UpdaterRuns`): the parser against
  the grammar, the comparison against section 11 of SemVer 2.0.0, and the link-switching script as a trace of layouts, one for
  every change of the file system, so that a crash leaves any of them behind. Any command may fail, and `set -e` then cuts the
  trace short.
- **Passwords** (`Octets`, `Base64`, `Password`): PBKDF2 against section 5.2 of RFC 8018 and the encoded record against its parser,
  base64 included (sections 3.2 and 4 of RFC 4648). HMAC-SHA-256 is any function with 32 octets of output.
- **Login limiter, sessions, handlers** (`Limiter`, `Sessions`, `Server`, `LoginRace`): temporal bounds of the limiter, sessions as
  a function of the history of acknowledged events, and exactly when a password change or a block keeps its promise to revoke
  sessions: it depends on logins that overlap it and on the outcome of its writes.
- **Audit tail** (`Audit`): the bounded reader against "the last events of the log, newest first".

Instants are integers and writes of a file either replace it or fail and leave it alone. Randomness, the clock, the outcomes of
writes, health probes and the answers of binaries are parameters of the operation that uses them.

## Model

| member | source | states |
|---|---|---|
| StateMachine.ReopeningRestoresASnapshot | internal/state/store.go:83-119 | over every run of mutations, failed writes, crashes and reopenings, a pair of files that loads gives exactly the memory some process had at an earlier point of the run, never a mix |
| StateMachine.RevisionsAreOrdered | internal/state/store.go:301-318 | the revision in state.json is never above that in secrets.json, and Open succeeds if and only if they are equal |
| StateMachine.LoadsExactly | internal/state/store.go:83-119 | a pair of files loads if and only if both have schema 1 and one revision, a missing file counting as an empty one of revision 1, and then as it is |
| StateMachine.AcknowledgedSurvives | internal/state/store.go:162-188 | what a reopening restores is built by a log that extends every log acknowledged before, by any earlier process, and its revision counts that log |
| StateMachine.StepKeeps | internal/state/store.go:301-344 | every step, crash or reopening keeps acknowledged changes, state.json, secrets.json and memory prefixes of one another |
| StateMachine.AccountsOverRuns | internal/state/store.go:121-188 | in every process and every accepted pair, users and hashes have the same keys and each key is its record's normalized name |
| StateMachine.AdministratorRemains | internal/state/store.go:257-286 | once a process or an accepted pair has an active administrator, every later state of that process, or later accepted pair, has one |
| StateMachine.BootstrapFileIsWrittenOnce | internal/state/store.go:129-160 | over every run, bootstrap-admin.secret is written at most once in the life of a state directory |
| StateMachine.RemovedBootstrapNeverReturns | internal/state/store.go:230-255 | over every run, once a password change has removed the file it never comes back |
| StateMachine.BootstrapFileIsPresentExactly | internal/state/store.go:129-160 | over every run, the file is there with a text if and only if a bootstrap wrote that text and no password change, of whatever user, has removed it since |
| StateModel.AdminStays | internal/state/store.go:268-278 | no mutation removes the last active administrator |
| StateModel.HasAdminMeans | internal/state/store.go:288-297 | an active administrator is an unblocked user with the role of an administrator |
| StateModel.NormalizeIsIdempotent | internal/state/store.go:121-127 | a normalized user name normalizes to itself |
| Accounts.NamesExactly | internal/state/store.go:121-127 | a text names a user if and only if it is the name, in any case of letters, between white space |
| Accounts.UsernamePattern | internal/state/store.go:60 | the names are those of the pattern: a small letter and 2 to 63 small letters, digits, dots, underscores or hyphens |
| Accounts.SpaceIsWhiteSpace | internal/state/store.go:121-127 | the white space of ASCII |
| Accounts.AccountIsWhatTheLogSays | internal/state/store.go:129-286 | over every sequence of changes a user exists if and only if some change made it, is blocked if and only if its last block or unblock was a block, and must change its password if and only if it was bootstrapped and never changed it |
| Accounts.RoleIsThatOfItsMaking | internal/state/store.go:129-188 | its role and creation time are those of the one change that made it |
| Accounts.HashIsThatOfItsLastChange | internal/state/store.go:230-255 | its stored hash is that of its last bootstrap, creation or change of password |
| Accounts.OthersAreUnchanged | internal/state/store.go:257-286 | a change leaves every other account as it was |
| Accounts.OwnAccount | internal/state/store.go:129-286 | what each kind of change sets in its own account and what it keeps, and that both revisions go up by one modulo 2^64 |
| Accounts.CredentialsExactly | internal/state/store.go:212-228 | exactly the users who are there and unblocked are accepted, with a password that fits the stored record |
| Accounts.AcceptedExactly | internal/state/store.go:212-228 | over every sequence of changes a password is accepted if and only if the user is unblocked by its last block or unblock and the password derives the key of the one stored last |
| Accounts.MadeHasPassword | internal/state/store.go:129-188 | every user that was made has a password stored last, so the two cases cover every name |
| Accounts.UnknownIsRefused | internal/state/store.go:212-228 | a name that no change made is refused with any password |
| StateStore.CallIsRun | internal/state/store.go:301-318 | a call of the store is a piece of a run of the machine, so theorems about runs cover all sequences of calls |
| StateStore.CallMeans | internal/state/store.go:162-188 | a call changes memory even when a write fails; it is acknowledged exactly when every write it needs succeeded |
| StateStore.ErrorMeansNoEffectExactlyWhenRefused | internal/state/store.go:162-188 | of the calls that return an error, exactly those refused before the change leave memory as it was |
| StateStore.FilesLoadAfterCall | internal/state/store.go:301-318 | after a call, acknowledged or not, the pair of files loads if and only if state.json was written when secrets.json was, or neither was and it loaded before |
| StateStore.FailedCallIsMadeDurable | internal/state/store.go:162-188 | the change of a call that returned an error stays, and the next acknowledged call of the process, after any other steps, makes it durable for every later reopening |
| StateStore.RefusedExactly | internal/state/store.go:162-286 | creations, password changes and blocks are refused exactly for these inputs: an invalid name, role or password length, a name in use or unknown, a blocked user, a wrong old password, the last active administrator |
| StateStore.PasswordIsChecked | internal/state/store.go:212-228 | in every process of every run a password is accepted if and only if the user is unblocked and the password derives the key of the one stored last |
| StateStore.Store.VerifyCredentials | internal/state/store.go:212-228 | accepts exactly an existing unblocked user whose stored record the password fits, and changes nothing |
| StateStore.Store.Open | internal/state/store.go:62-119 | opens exactly when the files can be read and decoded and the pair loads, and then with the loaded memory |
| StateStore.Store.PersistLocked | internal/state/store.go:301-318 | secrets first, state only after secrets, and what each file and log is afterwards for each outcome |
| StateStore.Store.BootstrapAdmin | internal/state/store.go:129-160 | creates an administrator only in an empty store; the world afterwards is one call of the machine, and on success the only user is that administrator and the bootstrap file has its password |
| StateStore.BootstrapTextHasBoth | internal/state/store.go:155 | the bootstrap file consists of a line with the user and a line with the password |
| StateStore.Store.CreateUser | internal/state/store.go:162-188 | refused without effect, or exactly one call of the machine; on success the new user has the given name and role, is unblocked, and has the hash of the given password |
| StateStore.Store.ChangePassword | internal/state/store.go:230-255 | refused without effect unless user, block and old password are right, else one call of the machine that ends with the removal of the bootstrap file; on success the old password fitted and the hash of the new one is stored |
| StateStore.Store.SetBlocked | internal/state/store.go:257-286 | refused for the last active administrator by the counting loop, else one call of the machine; on success the user is blocked or unblocked as asked and nothing else changed |
| StateStore.Store.CountActiveAdmins | internal/state/store.go:268-274 | the loop over the map counts the active administrators, in any order |
| StateStore.Store.Ready | internal/state/store.go:288-297 | ready if and only if an active administrator exists |
| StateStore.CreatedPasswordVerifies | internal/state/store.go:162-228 | after an acknowledged CreateUser the password is accepted in the memory of this process and of all later ones, and in every store that an opening restores, until a change of the password or a block of the user |
| StateStore.ChangedPasswordVerifies | internal/state/store.go:212-255 | the same after an acknowledged ChangePassword |
| StateStore.BootstrapPasswordVerifies | internal/state/store.go:129-160 | the same after an acknowledged BootstrapAdmin, for the password that bootstrap-admin.secret holds |
| StateStore.ChangeRemovesBootstrapExactly | docs/adr/ADR-0003-authentication-rbac.md:11 | after an acknowledged password change, of any user, the bootstrap file is gone, and for good, if and only if its removal succeeded or it was gone before |
| OperationsModel.TerminalStatusIsFinal | internal/operations/store.go:91-132 | in operations.json each identifier first appears running, is there without a gap, and goes to at most one terminal record, over every run with fresh identifiers |
| OperationsModel.AcknowledgedFinishSurvives | internal/operations/store.go:110-132 | until a Start prunes it, the record of an acknowledged Finish is in the file, in memory and in every later opening, with its terminal status |
| OperationsModel.NothingRunsUntilStart | internal/operations/store.go:72-88 | an opened store has no running record, in memory or on disk, until its next Start |
| OperationsModel.AtMostMaxRecords | internal/operations/store.go:157-170 | over every run, each content of operations.json and each memory holds at most 1000 records |
| OperationsModel.OnlyOldestArePruned | internal/operations/store.go:157-170 | over every run, a record that left operations.json started no later than any record that was there with it and stayed, also after failed writes |
| OperationsModel.FailedStartForgets | internal/operations/store.go:98-106 | a failed Start leaves memory as it was if and only if the store was not full or pruning chose the new record; what memory forgets, the file keeps |
| OperationsModel.FailedStartForgetsWhen | internal/operations/store.go:98-106 | before the call: it is certain to change memory if and only if the store is full and holds a strictly older record, and certain not to if and only if it is not full or holds only strictly newer ones |
| OperationsModel.FailedStartCanForget | internal/operations/store.go:98-106 | a run that reaches a full store and a Start whose failed write is certain to change memory |
| OperationsModel.FailedFinishIsDecidedLater | internal/operations/store.go:120-130 | after a failed Finish the file shows the record running and Finish is refused until a write; the next write that keeps it shows the terminal record, and a crash before it makes the next opening show it as interrupted |
| OperationsStore.OperationStore.Open | internal/operations/store.go:51-89 | the opening step of the machine; running records become interrupted with the time and error code of the restart, the others stay, the file is written only when there were any; an unreadable file or another schema is refused |
| OperationsStore.OperationStore.Start | internal/operations/store.go:91-108 | the starting step of the machine for some admissible pruning, in success and in failure; a started record has exactly the given identifier, kind, actor, role and target, and runs since now |
| OperationsStore.OperationStore.Finish | internal/operations/store.go:110-132 | the finishing step of the machine, in success and in failure; only a running record is finished, only as succeeded or failed, and only its status, finish time and error code change |
| OperationsStore.OperationStore.PruneLocked | internal/operations/store.go:157-170 | the newest 1000 records stay, whatever order an unstable sort gives to ties |
| OperationsStore.SortByStart | internal/operations/store.go:165 | a sorted arrangement of the same records |
| Handlers.SucceededOperationIsDurable | internal/httpserver/server.go:167-276 | at every point of every run with concurrent requests, processes that call the state store without one, failed writes and crashes, the change of every succeeded operation in operations.json, of whatever kind, is in the log that state.json is built by, then and ever after |
| Handlers.SucceededCreationIsDurable | internal/httpserver/server.go:213-236 | in particular a succeeded user creation names a user that state.json holds then and ever after |
| HandlerRuns.RecordOfAcknowledgedCall | internal/httpserver/server.go:311-329 | over any further steps, the file shows an acknowledged call as succeeded if and only if operations.json was written at or after its Finish, by whatever operation; after a crash the next opening shows it as interrupted if and only if it was not, and the change is durable in both cases |
| HandlerRuns.ChangeIsDurableExactlyWhenWritten | internal/httpserver/server.go:228-232 | whatever its record says, the change of a request whose call began stays in memory, and state.json and every restarted process have it if and only if state.json was replaced since, by that call or a later one |
| HandlerRuns.RefusedRequestHasNoChange | internal/httpserver/server.go:228-232 | over every run, a request that the store refused never has a change |
| HandlerRuns.RecordsCarryTheirStart | internal/httpserver/server.go:311-312 | over every run a record has the identifier, kind, actor, role, target and start time that the handler passed to Start |
| HandlerRuns.StartedCreationIsStored | internal/httpserver/server.go:225-234 | the user that the handler passed to Start is in state.json, then and ever after, whenever operations.json shows the creation as succeeded |
| Handlers.StepKeeps | internal/httpserver/server.go:311-329 | every interleaved step keeps the two stores, their files and the requests under way in agreement |
| Handlers.RecordedTargetIsTheUser | internal/httpserver/server.go:178-266 | for creations, password changes, blocks and unblocks, the recorded kind and target determine the user and the kind of the change that the store makes |
| SemVerGrammar.ParserAcceptsExactlyTheGrammar | internal/release/release.go:176-222 | parseSemVer accepts a string if and only if the grammar of SemVer 2.0.0 derives it |
| SemVer.DecompositionIsUnique | internal/release/release.go:24 | the groups of a version are determined by it, and rendering them gives the string back |
| SemVer.ParseSemVer | internal/release/release.go:176-192 | the parser is the specification function that the grammar theorem is about |
| SemVerOrder.ParsedFieldsArePrinted | internal/release/release.go:176-192 | printing the fields that the parser read gives the version back, but for build metadata |
| SemVer.ValidateIdentifiers | internal/release/release.go:194-222 | the loops accept exactly the lists of valid identifiers and return the parts between the dots |
| SemVer.NumericStringOrder | internal/release/release.go:224-238 | length first, then byte order, is the order of the numbers, for digit strings of any length without leading zeros |
| SemVer.CompareVersions | internal/release/release.go:252-307 | an error exactly for invalid versions, else the precedence that SemVerOrder.PrecedenceIsSection11 characterises |
| SemVerOrder.PrecedenceIsSection11 | internal/release/release.go:252-307 | the result is -1, 1 or 0 exactly as section 11 of SemVer 2.0.0 puts the first version below, above or beside the second: the first of major, minor and patch that differs, a pre-release below its release, then the first field that differs, numbers by value and below texts, texts in ASCII order, fewer fields below more |
| SemVer.ComparePreRelease | internal/release/release.go:275-306 | the index loop compares field by field, a proper prefix being lower |
| SemVerOrder.PrecedenceAntisymmetric | internal/release/release.go:252-307 | swapping the arguments negates the result |
| SemVerOrder.PrecedenceTransitive | internal/release/release.go:252-307 | transitive through numeric, alphanumeric and shorter pre-releases, and strict when either step is |
| SemVerOrder.TiesIgnoreExactlyBuild | internal/release/release.go:252-307 | the result is 0 if and only if the strings are equal without build metadata |
| Release.ReleaseIdIsPartial | internal/release/release.go:103-105 | on validated manifests ReleaseID is defined if and only if the commit has at least 12 characters, and a validated manifest on which it panics exists |
| Release.ReleaseIdIsDecodable | internal/release/release.go:103-105 | the identifier determines version and shortened digests, although versions contain hyphens |
| Release.ReleaseIdHasThreeParts | internal/release/release.go:103-105 | the identifier is the version and both shortened digests between hyphens |
| Release.VerifiedExactly | internal/release/release.go:107-173 | a package is verified if and only if its manifest is signed, decodes, is well-formed, and fits the platform, the state schema, the size and the digest of the binary |
| Release.SignatureComesFirst | internal/release/release.go:107-173 | an invalid signature is reported before anything of the manifest is looked at |
| Release.ReleaseIdIsPathComponent | internal/release/release.go:103-105 | the identifier is a single path component that never collides with a staging name |
| Updater.Installation.Update | install/update.sh:34-125 | the script's changes of the file system are exactly the trace, up to the first command that fails, and it exits 0 exactly on success |
| Updater.Installation.Stage | install/update.sh:73-85 | an existing release is only compared; a new one appears complete in one step, or not at all when a command fails |
| Updater.Installation.PostAcceptance | install/update.sh:92-106 | accepts if and only if one of at most 24 polls does |
| UpdaterRuns.AcceptExactly | install/update.sh:58-71 | the gate passes if and only if the package verifies, the candidate reports its version and commit, and the version is above the running one by section 11 or a downgrade is allowed |
| UpdaterRuns.SucceedsExactly | install/update.sh:73-125 | the script exits 0 if and only if the gate passes, an installed release of that name has the same bytes, the service restarts and one of 24 polls accepts, and none of its two or ten changes of the file system fails |
| UpdaterRuns.EveryLayoutIsSafe | install/update.sh:73-124 | at every step, crash or not, both links name releases with their whole binary, and installed releases are unchanged |
| UpdaterRuns.NeverBelowTheStart | install/update.sh:62-124 | without --allow-downgrade no step of a run points current below the version the run started with |
| UpdaterRuns.SuccessAdvances | install/update.sh:87-124 | success ends with current at the verified release, strictly higher, and previous at the old one |
| UpdaterRuns.FailureRollsBack | install/update.sh:87-124 | a run that fails without crashing leaves `previous` as it was, and `current` and the running bytes too, unless `current` was switched to another release and the link replacement after the switch fails: then `current` is at the new release |
| UpdaterRuns.SuccessCanGetStuck | install/update.sh:112-124 | every run that would switch to another release and succeed gets stuck so when its last change fails instead |
| UpdaterRuns.UpdateCanGetStuck | install/update.sh:112-124 | such an installation and update exist |
| UpdaterRuns.NewReleaseCarriesItsDigest | install/update.sh:58-84 | a release added by a run has all three files of its verified package and is named after the digest of its signed binary |
| UpdaterRuns.ReleasesComeFromVerifiedRuns | install/update.sh:58-84 | over all histories, with a runtime and key that may change between runs, each added release is the verified package of one earlier run |
| UpdaterRuns.HistoriesAreSafe | install/update.sh:73-124 | link safety and immutability over all sequences of runs, rollbacks and crashes |
| UpdaterRuns.VersionsNeverDecrease | install/update.sh:67-71 | over all such sequences without --allow-downgrade, versions at run boundaries never decrease |
| Base64.RoundTrip | internal/state/password.go:31-32 | the lenient decoder undoes the unpadded encoder, for every byte string |
| Base64.EncodedBit | internal/state/password.go:31-32 | bit i of the letters is bit i of the octets, zero beyond them, without padding: section 4 of RFC 4648 |
| Base64.DecodedBit | internal/state/password.go:45-50 | bit i of the decoded octets is bit i of the letters |
| Base64.DecodedExactly | internal/state/password.go:45-50 | letters outside the alphabet and a single letter left over are refused, and nothing else |
| Base64.LineBreaksAreSkipped | internal/state/password.go:44-48 | the decoder works as if line breaks were not there |
| Base64.LettersAreTheTable | internal/state/password.go:31-32 | the alphabet is Table 1 of RFC 4648 |
| Password.Pbkdf2Sha256 | internal/state/password.go:67-94 | the nested in-place loops compute the derived key of section 5.2 of RFC 8018 |
| Password.XorInto | internal/state/password.go:87-89 | each bit of the block becomes its sum with the bit of U modulo 2 |
| Octets.XorAddsBits | internal/state/password.go:88 | each bit of the exclusive or of two octets is the sum of their bits modulo 2 |
| Octets.XorLaws | internal/state/password.go:88 | adding the same octet twice changes nothing, the order does not matter, and 0 is neutral |
| Password.KeyOctet | internal/state/password.go:67-94 | octet k of the key is the XOR of octet k mod 32 along the HMAC chain of block k / 32 + 1 |
| Password.KeyBit | internal/state/password.go:67-94 | a bit of the key is set if and only if it is set in an odd number of the first c iterations of HMAC on the salt and the block index |
| Password.ShorterKeyIsPrefix | internal/state/password.go:67-94 | a shorter key is a prefix of a longer one |
| Password.Int4IsBigEndian | internal/state/password.go:73-76 | the four counter octets denote the block index exactly when it is below 2^32 |
| Password.VerifyReadsTheRecord | internal/state/password.go:35-54 | a printed record is accepted for a password if and only if the password derives the record's key |
| Password.VerifyAcceptsExactly | internal/state/password.go:35-54 | a text is accepted for a password if and only if it is a record of five parts with 100000 to 5000000 iterations, a salt of at least 16 octets and a key of 32 that the password derives |
| Password.PrintedRecord | internal/state/password.go:22-33 | passwords of 12 to 1024 octets, and no others, print a record with 600000 iterations and a key of 32 octets |
| Password.AtoiReads | internal/state/password.go:43 | signed decimal numbers are read back up to 64 bits, and nothing else is read |
| Password.HashThenVerify | internal/state/password.go:22-54 | what HashPassword printed is accepted for the hashed password, and for another one exactly when it derives the same key |
| Limiter.LoginLimiter.Allowed | internal/auth/rate.go:24-34 | admits exactly when expired or below the limit, forgets only expired entries, leaves other keys alone |
| Limiter.LoginLimiter.Failure | internal/auth/rate.go:36-46 | counts in the open window or opens a new one, leaves other keys alone |
| Limiter.SlidingWindowBound | internal/auth/rate.go:24-48 | any closed interval of the window's length without a success holds at most 2 * limit - 1 recorded failures |
| Limiter.SlidingWindowBoundIsTight | internal/auth/rate.go:24-48 | for every limit and window some history reaches that bound |
| Limiter.RefusalsAreEarned | internal/auth/rate.go:24-48 | a refusal means at least limit recorded failures within the last window |
| Limiter.SuccessForgetsFailures | internal/auth/rate.go:48 | after a login with the right credentials everything goes on as if nothing had been before it |
| Limiter.ConcurrentBound | internal/auth/rate.go:24-48 | with at most c logins in flight the count never exceeds limit - 1 + c, in any interleaving |
| Limiter.ConcurrentBoundIsTight | internal/auth/rate.go:24-48 | for every limit, window and c some interleaving reaches that bound |
| Limiter.AttemptIsTwoSteps | internal/auth/rate.go:24-48 | a login that nothing interrupts is its two locked steps |
| Sessions.Manager.Lookup | internal/auth/sessions.go:56-72 | finds unexpired sessions and deletes expired ones only |
| Sessions.Manager.RevokeUser | internal/auth/sessions.go:80-88 | the deleting loop removes exactly the sessions of the user |
| Sessions.SessionsComeFromLogins | internal/auth/sessions.go:40-88 | a token holds a session if and only if a login gave it and no later event ended it |
| Server.WhoPasses | internal/httpserver/server.go:358-373 | a request passes if and only if its token came from a login after the user's last acknowledged password change and block, was not logged out and has not expired, and the user exists, is unblocked and has the session's role |
| Server.Server.CurrentSession | internal/httpserver/server.go:358-373 | the table lookup decides exactly as the history does, and a request is recorded as refused exactly when its unexpired session has a user that is gone, blocked or of another role |
| Server.Server.RequirePermission | internal/httpserver/server.go:349-382 | passes exactly authenticated users whose role carries the permission |
| Server.Server.Login | internal/httpserver/server.go:113-136 | asks the limiter first, records the outcome under the same key, and opens a session only for an existing unblocked user whose stored record the password fits |
| Server.Server.Logout | internal/httpserver/server.go:148-160 | a logout ends the session of its token and no other |
| Server.Server.ChangePassword | internal/httpserver/server.go:181-186 | sessions of the user end exactly when the change was acknowledged |
| Server.Server.SetBlocked | internal/httpserver/server.go:242-276 | a target that is the actor's name up to case changes nothing; otherwise one call of the store, and a block that was acknowledged ends the user's sessions |
| Server.SelfBlockIsRefusedExactlyWhenTrimmed | internal/httpserver/server.go:248-252 | of the targets that name the actor, exactly those without surrounding white space are refused |
| Server.SelfBlockWithBlank | internal/httpserver/server.go:248-265 | with a blank before its name an administrator who is not the last active one blocks itself |
| Server.ChangeEndsSessions | internal/httpserver/server.go:181-186 | a session that passed before a password change still passes after it if and only if the change was not acknowledged, and the new password is accepted in either case |
| Server.BlockEndsSessions | internal/httpserver/server.go:266-273 | a blocked user does not pass; at any later moment when it is unblocked, a session from before the block passes if and only if the block was not acknowledged and no event in between ended the session |
| Server.RefusedWhileBlocked | internal/httpserver/server.go:358-373 | a request that presents the session while the block lasts is refused, and so ends it, if and only if the block was not acknowledged |
| Server.UnblockLetsIn | internal/httpserver/server.go:266-276 | after an unblock the right password is accepted and the session of a login with it passes until it expires |
| Server.PermitsExactly | internal/httpserver/server.go:374-382 | administrators may do everything, viewers may read the system, nobody else anything |
| LoginRace.SessionsInAnyInterleaving | internal/auth/sessions.go:40-88 | with credential check, session creation, change or block, and revocation as separate locked steps, in any interleaving, a session exists if and only if a checked login created it and no later step revoked or dropped it |
| LoginRace.BlockedExactly | internal/state/store.go:212-228 | in any interleaving a user is blocked if and only if no unblock followed its last block, acknowledged or not, and then no session of it passes and no login of it is checked |
| LoginRace.OutdatedSessionIsLeft | internal/httpserver/server.go:181-186 | a session whose credentials were checked before a change or block is left if and only if that handler's own revocation, if any, preceded its creation and nothing else ended it since; a handler whose write failed has no revocation |
| LoginRace.PromiseKeptExactly | docs/adr/ADR-0003-authentication-rbac.md:17 | no session with credentials from before a change or block ever lets its user in again, however the run goes on, if and only if no such session and no such login under way is left |
| LoginRace.AcknowledgedHandlerKeepsPromise | internal/httpserver/server.go:181-186 | a handler whose writes succeeded keeps that promise from its revocation on if and only if no login of the user that was checked before the change is still to create its session |
| LoginRace.FailedHandlerKeepsPromise | internal/httpserver/server.go:266-273 | a handler whose write failed keeps it if and only if the user has no session and no login under way |
| LoginRace.PromiseCanFail | internal/httpserver/server.go:120-134 | both failures happen at any point of any run, for changes and for blocks |
| Audit.Recent | internal/observability/audit.go:82-130 | the scanner, trimming and reversing loops return the last events of the lines in the read window, newest first, and fail exactly on a line that is too long |
| Audit.RecentMeansLastEvents | internal/observability/audit.go:82-130 | the result reversed is a suffix of all decodable events of the log, at most limit long, and it is the last limit events of the log if and only if the read window holds that many, or all |
| Audit.RecentReadsWhatWasAppended | internal/observability/audit.go:82-130 | of a log written by appending events, the result is the last ones, newest first, without a gap, at most limit or 100, and all of those when the log is at most 2 MiB |
| Audit.JunkIsSkipped | internal/observability/audit.go:115-118 | a line that does not decode is skipped wherever it stands |
| Audit.TornLineIsSkipped | internal/observability/audit.go:100-118 | a last line that a crash cut off is skipped, and all events before it are read |
| Audit.TokenMeans | internal/observability/audit.go:112-115 | a carriage return before the line feed is dropped, and nothing else |
| Audit.LinesAfterSeek | internal/observability/audit.go:100-112 | seeking into the middle of a line and dropping the first line leaves a suffix of the log's lines |
| Audit.ReverseInPlace | internal/observability/audit.go:126-128 | the swapping loop reverses the array |

## Left out

- HTTP routing, cookies, headers, origin checks, JSON request decoding, static files and the web UI: no deep property.
- JSON, PEM, Ed25519, SHA-256 and HMAC internals: a file holds the document written to it, and the rest are parameters; session digests are assumed injective.
- Several processes on one state directory, power loss without a directory fsync, clocks that go back: one process, atomic renames and, where stated, monotone time.
- Unicode case folding and white space: user names are ASCII text in the model.
- The desired and observed containers of state.json, which no operation changes.
- Temporary files of atomic writes and of link replacement, file modes and ownership.
- Server: handlers are atomic steps there, and operation records are in Handlers only. The promise of docs/adr/ADR-0003-authentication-rbac.md that a password change or a block revokes the applicable sessions is false in two cases, a login that overlaps the change and a change whose write failed; LoginRace proves exactly when it holds.
- Server: "nobody blocks itself" is false for a path with white space around the name; Server.SelfBlockIsRefusedExactlyWhenTrimmed is the exact condition.
- StateMachine: the promise of docs/adr/ADR-0003-authentication-rbac.md that the bootstrap credentials are removed after the first successful password change is false when the removal fails, whose error is ignored; StateStore.ChangeRemovesBootstrapExactly is the exact condition.
- LoginRace: one process, because a restart drops all sessions; expiry of sessions is in Server only.
- Updater: that install/install.sh put the first release in place is the assumption `Safe` of the layout at the start; its releases consist of the binary alone.
- OperationsModel.TerminalStatusIsFinal: needs identifiers that are never reused, because the store forgets pruned ones; the HTTP layer draws 128 random bits.
- Release.Verify: product, channel, build time and artifact name of the manifest belong to the decoder parameter.
- Audit.Recent: what a scanner still yields after a line that is too long is not modelled, because Recent then returns its error.
- install/install.sh, install/uninstall.sh, diagnostics bundles, command-line tools, listing and sorting for display: plumbing, or no version comparison.
