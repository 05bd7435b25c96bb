# Verification of durablefile, i18n and auth

A Dafny 4.11 model of the five parts of gouterstellar-platform that carry real logic, with
proofs about every run and every input. `dafny verify dfyconfig.toml` checks everything.

**Durable files.**
- `DestinationLocks` is the self-deleting registry of per-destination mutexes as a step
  relation: any number of threads, one program counter each, both mutexes, a heap of lock
  objects that outlive their registry entries. `CommitOrder` proves that commits to one
  destination are serialised, `LockProgress` that no schedule deadlocks or runs for ever,
  and `LockRegistry` is the same machine as an object updated in place.
- `Disks` is a disk with visible and durable directory entries and file data, and the set of
  images a crash may leave. `FileSystem` is the system calls, each of which may fail;
  `DurableFile` is `writeReader`, `replace` and `commit` over them. `CrashSafety` and
  `ReplacementSpec` hold what these methods are proved against: what every crash shows, at the
  destination and everywhere else, what each of the three outcomes means, and when the new
  contents are durable. `ReplacementRuns` carries this over any sequence of calls.

**Translations.** `Scanners` has the three regular expressions as scanners, `Messages` the
message compiler and the precompiled renderer, `Rendering` the agreement with the naive
renderer, the meaning of the static signature at run time and fmt.Sprintf on the formats that
occur, `Catalogs` whole catalogs.

**Authentication.** `Sessions` has the operations on session data, `SessionRuns` whole runs in
which sign-ins are late, versions rotate and requests overlap, and `SessionServer` the same
system as a server that updates its store and its requests' session data in place. `Jwt` is the
profile of tokens (sections 2 and 4.1.4 to 4.1.6 of RFC 7519), `Base64` and `Passwords` the
Argon2id hash text (sections 3.2, 4 and 10 of RFC 4648).

## Where the code does less than its documentation

- **A nil error is not always durable.** `durablefile/durablefile.go:49-62` reserves
  `*CommittedError` for contents whose survival is not guaranteed. The commit syncs only the
  parents of directories it created itself. If an earlier call created a directory and then
  failed, a later call finds it existing, never syncs its parent, and returns nil for contents
  a crash may lose. `ReplacementSpec.DurableIffAncestorsSettled` gives the exact condition on the
  disk. In terms of the calls made, `ReplacementRuns.NilIsDurable` says that a nil is durable when
  no earlier call returned an error after creating a directory above, and
  `ReplacementRuns.RetryIsNotDurable` that it is not right after such a plain error.
  `ReplacementSpec.RetryExample` follows one retry to the lost file.
- **A sign-out can be undone.** `auth/session.go:216` says that it destroys the session. A request
  that overlaps it and has changed, or may still change, the same session stores it again under
  the old token when it ends. `SessionRuns.SignOutIsFinalIff` gives the exact condition,
  `SessionRuns.SignOutUndone` a run.
- **The renderers can differ when an argument brings in a verb.** `render` decides whether to call
  Sprintf from the template, `injectParams` from the substituted text. They agree for every
  formatter exactly when no verb is brought in (`Rendering.RenderedIsInjected`), and for Sprintf
  itself also when formatting happens to give the text back (`Rendering.SprintfAgreesIff`).
  `Rendering.ArgumentBringsVerb` has an input for each case: an argument `%d` is rendered in two
  ways, an argument `%s` in one.
- **Equal signatures do not always mean equal formatting.** `%%s` has the signature of plain text
  (`Rendering.FormattedWithoutVerbs`), and a percent sign inside an argument can turn template text
  into a verb (`Rendering.PercentInArgument`). For messages with verbs the exact condition on the
  arguments is that their percent signs are doubled (`Rendering.VerbsKeptIff`).

## Model

| member | source | states |
|---|---|---|
| DestinationLocks.LockInvStep | durablefile/durablefile.go:247-275 | every statement of every thread keeps: registry.mu held by exactly the thread inside it, lock.mu by exactly the committing thread, local locks are current entries, refs is a true count |
| DestinationLocks.RunIsSafe | durablefile/durablefile.go:247-275 | in every reachable state the counted threads of a destination share the registry's current lock and at most one commits; lock objects that left the registry are free and nobody will use them; different destinations have different locks |
| DestinationLocks.RefsAreConserved | durablefile/durablefile.go:256-274 | an entry's refs is the number of threads between refs++ and refs--; with registry.mu free an entry exists exactly when that number is positive; a finished system has an empty registry |
| CommitOrder.CommitsAreSerialised | durablefile/durablefile.go:173-179 | at every moment a destination holds its initial contents or one of its own writers' complete contents; replacements follow the order of lock acquisition and leave out exactly the failed ones; the visible contents are the last one's |
| LockProgress.StepDecreasesRemaining | durablefile/durablefile.go:256-274 | whatever thread steps, the total number of remaining statements falls |
| LockProgress.NoDeadlock | durablefile/durablefile.go:256-274 | while a commit is unfinished some thread can step |
| LockProgress.MaximalRunFinishes | durablefile/durablefile.go:256-274 | n commits take at most 12n steps, and a schedule that cannot go on has finished all of them and emptied the registry |
| LockProgress.OnlyTwoReasonsToWait | durablefile/durablefile.go:256-274 | a blocked thread waits for registry.mu, whose holder can step and is not waiting for a lock, or for its own destination's lock, whose holder can step |
| LockProgress.OtherKeysStayEnabled | durablefile/durablefile.go:256-274 | a thread of one destination disables a thread of another only by taking registry.mu |
| LockRegistry.Registry.FindOrCreate | durablefile/durablefile.go:257-261 | returns the current lock of the key or a new one that becomes current, and changes no other entry |
| LockRegistry.Registry.DropIfUnused | durablefile/durablefile.go:269-272 | deletes the entry exactly when no reference is left |
| LockRegistry.Registry.Statement | durablefile/durablefile.go:256-274 | one statement, updating the registry in place, is one step of the machine |
| LockRegistry.Registry.Execute | durablefile/durablefile.go:173-179 | any schedule of threads is a run, so its result is safe, and empty when every thread is done |
| Disks.DurableIffSettled | durablefile/durablefile.go:177-191 | contents survive every crash exactly when every entry above and at the path has only one possible value and the file is flushed |
| CrashSafety.RenameGuarded | durablefile/durablefile.go:177-179 | renaming a flushed staged file over the destination adds no crash outcome but the complete new contents |
| CrashSafety.GuardedIsCrashSafe | durablefile/durablefile.go:95-117 | a crash on a guarded disk shows at the destination what a crash before the replacement could have shown, or the complete new contents |
| CrashSafety.RenameSafe | durablefile/durablefile.go:177-179 | the rename adds no crash outcome at any other path that existed, either |
| ReplacementSpec.MissingIsChain | durablefile/durablefile.go:194-213 | the directories found missing run from child to parent and stop below an existing one |
| ReplacementSpec.MissingIsComplete | durablefile/durablefile.go:194-213 | they are exactly the missing ancestors |
| ReplacementSpec.ParentsExact | durablefile/durablefile.go:215-228 | the synced parents are exactly the created directories' parents, each once |
| ReplacementSpec.DurableIffAncestorsSettled | durablefile/durablefile.go:177-191 | after all required syncs the new contents are durable exactly when every ancestor found existing was durable or lies in the synced source directory |
| ReplacementSpec.ChangesAreSettled | durablefile/durablefile.go:180-190 | after the required syncs every entry that the replacement changed, and the source's, has only its new value, whatever crash follows |
| ReplacementSpec.FailedAttemptUnsettles | durablefile/durablefile.go:194-213 | an attempt that failed after creating an ancestor breaks that condition for every later one whose source does not lie next to it |
| ReplacementSpec.RetryExample | durablefile/durablefile.go:95-117 | a failed attempt, then one that stages, renames and syncs all it has to, and a crash after which its file is missing |
| DurableFile.CreateParentDirectories | durablefile/durablefile.go:194-213 | the walk ends, returns exactly the missing ancestors deepest first, and changes nothing else, also when it fails half way |
| DurableFile.SyncCreatedDirectoryParents | durablefile/durablefile.go:215-228 | syncs the parents in order, each once, and stops at the first failure |
| DurableFile.SyncAffectedDirectories | durablefile/durablefile.go:180-190 | destination directory, source directory if different, then the parents, up to the first failure |
| DurableFile.SyncedDirectoriesExist | durablefile/durablefile.go:180-190 | every directory to be synced exists by then, so only a fault makes a sync fail |
| DurableFile.Commit | durablefile/durablefile.go:173-192 | plain error: nothing changed and nothing synced; CommittedError: renamed, and the log of syncs ends in the first failure; nil: renamed and all synced |
| DurableFile.CommitMeaning | durablefile/durablefile.go:29-37 | what each outcome means for what processes see, and on nil that no crash can undo any change that was made: not at the destination, not at the source, not at a created directory |
| DurableFile.FillTemporary | durablefile/durablefile.go:95-107 | success means complete and flushed contents; nothing but the temporary file's data changes |
| DurableFile.RemoveTemporary | durablefile/durablefile.go:86-93 | the temporary file is gone or its failed removal is recorded; the destination is not touched |
| DurableFile.PermissionBits | durablefile/durablefile.go:277-294 | the accepted modes are those below 512 |
| DurableFile.WriteReader | durablefile/durablefile.go:67-117 | rejected arguments touch nothing; the outcome has its meaning; every crash during the call shows old or complete new contents at the destination and nothing new anywhere else; no temporary file stays unless its removal failed; without a fault it succeeds if there is room for both files |
| DurableFile.Replace | durablefile/durablefile.go:127-162 | the same for a source chosen by the caller, which is gone exactly when the destination was replaced by another file; without a fault it succeeds if the source is a file and there is room |
| ReplacementRuns.PerformAll | durablefile/durablefile.go:63-192 | any sequence of calls of both entry points on one file system, with any failures, is a run, and its disks are all those recorded |
| ReplacementRuns.RunShowsNothingNew | durablefile/durablefile.go:63-192 | a crash at any moment of any calls shows nothing new at a path that they leave alone, whether something was there or not |
| ReplacementRuns.SourceStaysGone | durablefile/durablefile.go:183-187 | after a nil no later crash brings a moved source back, until a call names it or a path above it, or creates it as a directory |
| ReplacementRuns.StaysDurable | durablefile/durablefile.go:177-191 | contents that are durable survive a crash at any moment of any later calls that do not replace or move them |
| ReplacementRuns.NilIsDurable | durablefile/durablefile.go:177-191 | from durable directories, a nil is durable if no earlier call returned an error after creating a directory above the destination |
| ReplacementRuns.NilSurvives | durablefile/durablefile.go:177-191 | and then stays durable throughout all later calls, until one replaces or moves it |
| ReplacementRuns.RetryIsNotDurable | durablefile/durablefile.go:194-213 | a nil right after a plain error that had created a directory above the destination is not durable, unless the source lies next to that directory |
| Scanners.MatchAtExact | i18n/i18n.go:19 | the scanner matches `\{(\d+)\}` exactly |
| Scanners.SpansExact | i18n/i18n.go:228 | the leftmost non-overlapping matches are all the occurrences |
| Scanners.SpansIncrease | i18n/i18n.go:228-236 | matches are in bounds, increasing and disjoint |
| Scanners.JavaVerbExact | i18n/i18n.go:21 | greedy scanning finds a Java verb whenever some split of the text matches the expression |
| Messages.IndexesExact | i18n/i18n.go:246-253 | the collected set holds exactly the occurring indexes, and exists exactly when all fit an int |
| Messages.SortedListingIsUnique | i18n/i18n.go:254-258 | the sorted listing of a set does not depend on iteration order |
| Messages.SortedIndexes | i18n/i18n.go:254-258 | the loop over the map and the sort give that listing |
| Messages.CollectIndexes | i18n/i18n.go:246-253 | the first loop computes the set of indexes or reports one that does not fit |
| Messages.CollectVerbs | i18n/i18n.go:260-279 | the percent loop computes the verbs, or the first error, of the recursive scan |
| Messages.ParseMessageSignature | i18n/i18n.go:245-281 | returns the signature the message has, or the error it is rejected with |
| Messages.SignatureIsUnique | i18n/i18n.go:245-281 | a message has one signature or one error, whatever the map order |
| Messages.IndexedArePlaceholders | i18n/i18n.go:228-258 | the signature's separate pass lists exactly the indexes of the compiled placeholders, which are exactly the braced numbers of the template |
| Messages.CompileMessage | i18n/i18n.go:223-243 | compiles exactly the messages that have a signature; the second parse of an index never fails |
| Messages.CompilationIsUnique | i18n/i18n.go:223-243 | a message has one compiled form |
| Messages.SubstituteNothing | i18n/i18n.go:291-303 | gaps and placeholder texts rebuild the template |
| Messages.SubstituteGap | i18n/i18n.go:294-302 | the naive substitution copies the gap before a match, replaces the match, and goes on after it |
| Messages.PlaceholderInOutput | i18n/i18n.go:294-302 | for every placeholder of every message the output has the argument of its number there, or its own text if there is none |
| Messages.TextInOutput | i18n/i18n.go:303 | text without placeholders is copied |
| Messages.Render | i18n/i18n.go:287-308 | for every Sprintf, the text built from the precompiled placeholders is the naive substitution; no slice is out of range |
| Rendering.FormattedStaysFormatted | i18n/i18n.go:304-321 | a formatted template stays formatted after substitution |
| Rendering.RenderedIsInjected | i18n/i18n.go:287-325 | `render` and `injectParams` agree under every formatter exactly when the arguments bring no verb into an unformatted template |
| Rendering.SprintfAgreesIff | i18n/i18n.go:304-324 | for Sprintf itself they agree exactly when no verb is brought in or formatting gives the substituted text back |
| Rendering.ArgumentBringsVerb | i18n/i18n.go:321-323 | with Sprintf, an argument `%d` makes the renderers return different texts, and an argument `%s` the same although it brings in a verb |
| Rendering.TokenizeExact | i18n/i18n.go:260-281 | a format decomposes in at most one way into text, `%%`, `%s`, `%d` and a final lone `%`, and left-to-right reading finds it |
| Rendering.AcceptedIff | i18n/i18n.go:245-281 | a message compiles exactly when the numbers in its placeholders fit and, if formatted, it decomposes, else no percent sign after an even run of them starts a Java verb; its verbs are the decomposition's; verbs imply formatted |
| Rendering.VerbLetters | i18n/i18n.go:268-270 | after a percent sign s and d are verbs |
| Rendering.RefusedLetters | i18n/i18n.go:271-278 | exactly the flags, digits and conversions of Java are refused after a percent sign, and nothing else is a verb |
| Rendering.SameSignatureIff | i18n/i18n.go:283-285 | comparing the signatures of two accepted messages decides exactly whether their texts have the same numbers in placeholders and the same verbs in order |
| Rendering.FormattedWithoutVerbs | i18n/i18n.go:260-281 | `%%s` and `x` both compile, with equal signatures, and only one is formatted |
| Rendering.SubstitutionKeepsVerbs | i18n/i18n.go:287-303 | substituting arguments whose percent signs are doubled keeps a format's verbs in order |
| Rendering.VerbsTakeArguments | i18n/i18n.go:305 | the k-th verb of a format consumes the k-th argument |
| Rendering.SignatureSoundness | i18n/i18n.go:283-307 | accepted messages with equal signatures and some verb are formatted, hand Sprintf formats with exactly the signature's verbs, and consume arguments alike, if the arguments' percent signs are doubled |
| Rendering.VerbsKeptIff | i18n/i18n.go:287-307 | for given arguments, every accepted message with verbs hands Sprintf exactly its signature's verbs if and only if all the arguments' percent signs are doubled |
| Rendering.PercentInArgument | i18n/i18n.go:298-305 | with a percent sign in an argument this fails |
| Catalogs.CompileBundle | i18n/i18n.go:211-221 | succeeds exactly when every message is accepted, keeps the keys, in any visiting order |
| Catalogs.CheckContracts | i18n/i18n.go:200-205 | reports a key exactly when some shared key has another signature, which Rendering.SameSignatureIff says of the texts |
| Catalogs.CompileCatalog | i18n/i18n.go:184-209 | succeeds exactly when every locale's messages are accepted and every key shared with the default locale has the same placeholder numbers and the same verbs in both texts; on success keys are kept and any two locales agree on the default locale's keys |
| Catalogs.ConsistentHasOneContract | i18n/i18n.go:200-205 | comparing each locale with the default one is enough: the texts of any two locales for a key of the default locale have the same numbers and verbs |
| Catalogs.LocalesFormatAlike | i18n/i18n.go:200-205 | so they consume such arguments alike, whatever locale a message with verbs is taken from |
| Catalogs.TranslateIsNaive | i18n/i18n.go:152-164 | lookup in the compiled catalog with its fallback translates like the naive translator, under every formatter, exactly when no verb is brought into the message found |
| Catalogs.TranslateUses | i18n/i18n.go:152-164 | a locale's own message is used, the default locale's only where that is missing, and the fallback only where both are |
| Sessions.VerdictMeaning | auth/session.go:155-196 | a handler sees a principal exactly when subject and version are stored and current; an untrusted session, and no other, is deleted; every other disagreement is an error response |
| Sessions.SignInRotatesToken | auth/session.go:201-214 | signing in moves the session to a fresh token, deletes the old one, and keeps all other values and sessions |
| Sessions.SignInRefused | auth/session.go:202-207 | exactly a subject of spaces, an empty version and a failing store are refused, and then nothing changes |
| Sessions.PutIsReadBack | auth/session.go:228-240 | a value put in one request is read in the next, until removed |
| Sessions.ReaderRestores | auth/session.go:137-138 | a request that only reads a session deleted meanwhile stores it again exactly when there is an idle timeout |
| SessionRuns.StepKeepsInv | auth/session.go:155-214 | every step keeps provenance of stored pairs, freshness of verified credentials and of principals |
| SessionRuns.StoredPairsComeFromSignIn | auth/session.go:201-214 | in every run, a stored subject and version come together from one successful sign-in |
| SessionRuns.PrincipalsAreFresh | auth/session.go:186-193 | in every run, a principal a handler sees has credentials verified no earlier than its subject's latest rotation before resolution, however late the sign-in |
| SessionRuns.OtherSessionsKept | auth/session.go:155-240 | no action deletes, changes or creates a stored session that it is not about |
| SessionRuns.UntouchedStays | auth/session.go:155-240 | so a session stays as it is stored through any run of actions that are not about it |
| SessionRuns.GoneForever | auth/session.go:217-222 | a deleted token that no open request may save never returns, in any continuation |
| SessionRuns.SignOutIsFinalIff | auth/session.go:217-222 | a sign-out deletes the session and no other, and some continuation stores it again exactly when an overlapping request may still save it |
| SessionRuns.SignInIsFinalIff | auth/session.go:198-210 | the same for the token that a sign-in replaces |
| SessionRuns.SignOutUndone | auth/session.go:216-222 | a run in which a signed-out session is stored again, still signed in |
| SessionServer.Server.Perform | auth/session.go:155-240 | an action of the middleware, a handler or the application, updating the store and one request's data in place, is one step of a run |
| SessionServer.Server.Execute | auth/session.go:155-214 | after any actions every stored pair comes from one sign-in and every principal is fresh |
| SessionServer.Server.SignOutAndExecute | auth/session.go:217-222 | after a sign-out and any further actions the session is not stored, unless an overlapping request could save it when it was signed out; every other session is stored as before, unless it expired or a request of its own acted |
| Jwt.SelfAcceptedIffWholeSeconds | auth/jwt.go:52-57 | among lifetimes in range, exactly the whole seconds make every issued token pass Verify's lifetime check |
| Jwt.AdmittedProfiles | auth/jwt.go:45-61 | the admitted profiles in numbers: names, 32 secret bytes, 1 to 900 whole seconds, at most a minute of leeway |
| Jwt.IssuedClaims | auth/jwt.go:72-87 | a token names its subject, and carries the whole seconds of its issue, twice, and of its expiry |
| Jwt.AcceptedClaims | auth/jwt.go:97-126 | exactly which correctly signed claims are accepted, whoever made them: this issuer, this audience, a subject, both times at most the lifetime apart, and an instant within the leeway of them |
| Jwt.AcceptedExactly | auth/jwt.go:97-126 | where a token issued under one admitted profile is accepted under another: only with the same issuer and audience and a lifetime that is not longer, and then exactly within the leeway of its truncated times |
| Jwt.AcceptedWhileFresh | auth/jwt.go:72-93 | its issuer accepts it from issue to one second before the end of its lifetime |
| Jwt.TruncationCostsAlmostASecond | auth/jwt.go:83-85 | that second cannot be made smaller |
| Jwt.AcceptanceWindow | auth/jwt.go:97-126 | any two instants at which a correctly signed token is accepted differ by less than lifetime plus twice the leeway, so by less than 17 minutes |
| Passwords.AdmittedIff | auth/password.go:56-79 | the admitted policies are exactly the results of NewPasswords, which returns them unchanged |
| Passwords.PolicyInNumbers | auth/password.go:56-79 | the defaults of zero values and the limits of a policy in numbers |
| Passwords.OnlySafeHashesAreVerified | auth/password.go:93-161 | a stored text is verified exactly if it has at most 256 bytes, salt and key fields of at most 86, and costs within the limits in numbers; every other text gives the same error whatever Argon2id does |
| Passwords.HashedExactly | auth/password.go:132-140 | a password is hashed exactly when its length is within the policy, with the error of the bound it misses |
| Passwords.DefaultHashText | auth/password.go:64-70 | the hash text of the default profile, letter by letter |
| Passwords.OtherVariantsRefused | auth/password.go:153 | nothing but version 19 of Argon2id is decoded |
| Base64.DecodeIff | auth/password.go:153 | strict decoding is exactly the inverse of encoding |
| Base64.EncodeLength | auth/password.go:171-172 | the encoded length is EncodedLen |
| Base64.Alphabet | auth/password.go:171 | the alphabet in order |
| Base64.TestVectors | auth/password.go:171 | the vectors of section 10 of RFC 4648 without padding |
| Scanners.DecimalRoundTrip | auth/password.go:86 | printed numbers are digits and read back |
| Passwords.SplitJoin | auth/password.go:167 | splitting at dollar signs recovers the fields |
| Passwords.PreflightBoundsDecoding | auth/password.go:163-176 | whatever passes the preflight decodes to at most 64 bytes of salt and of key |
| Passwords.HashRoundTrip | auth/password.go:149-161 | for every admitted profile the hash has six parts, fits the limits and decodes to exactly that profile, salt and key |
| Passwords.HashSeenByOthers | auth/password.go:104-130 | another instance asks for a rehash exactly when the profiles differ, and a password matches exactly when it derives the same key |

## Left out

Durable files:
- System calls, file modes beyond the permission-bit check, symbolic links, special files, and
  Windows (lower-cased keys, directory syncs that do nothing) are not modelled.
- Paths are cleaned sequences of names below a base that always exists, so `..` components,
  trailing separators, failures of filepath.Abs and two spellings of one path are not modelled.
- Directories are never removed, and no other process changes the disk during a replacement. In
  particular, two replacements creating the same parents at the same time are not modelled: the
  crash theorems are about one replacement, the lock theorems about the commit sections of many.
- DurableFile.WriteReader: requires that the random name of the temporary file is not the
  destination's own name, because the deferred cleanup would otherwise remove the destination.
- ReplacementRuns.NilIsDurable: is a sufficient condition. Whether a failed call's directories became
  durable depends on which of its syncs had succeeded, which callers are not told; the exact condition,
  on the disk, is ReplacementSpec.DurableIffAncestorsSettled.
- A system call fails because of a fault or because of what the disk holds; space and permissions count
  as faults. A rename is atomic and a failed one changes nothing. A failed sync or flush is recorded as having
  made nothing durable, which leaves a crash the widest choice. The old contents are not assumed
  to be durable.
- A crash may lose any combination of unsynced entries. The order in which a real file system
  journals them is not modelled.

Translations:
- `New`'s checks of its options, file loading and properties parsing (i18n/i18n.go:72-117, 166-182)
  and the accessors of Translator and Localizer.
- Text is a sequence of characters, each of which may be read as a byte; encodings play no role.
- fmt.Sprintf is any function where renderers are compared, and is read only on text, `%%`, `%s`,
  `%d` and a final lone `%` where verbs are counted or printed, with what the verbs and the list of
  extra arguments print of an argument given. A slice's length is an int, and an int is 64 bits wide. Errors are kinds, not texts.
- Catalogs.TranslateIsNaive: requires one raw bundle per compiled locale, which `New` provides.

Sessions:
- Cookie attributes, the configuration checks of NewSessions, roles, claims, RequireAuthenticated and
  RequireRole.
- The SCS manager is modelled by what these operations rely on: renewing and destroying delete at
  once, the rest is saved when the request ends. Expiry may delete any session at any time. Tokens
  are numbers that never repeat. A store failure changes nothing.
- SessionRuns.StepKeepsInv: assumes, as the package asks of applications, that security versions are
  not reused, that sign-in passes verified credentials, that the reserved keys are left alone, and that
  the resolver returns a principal only for an enabled account and with its current version.
- Accounts are neither created nor deleted during a run; they are disabled and enabled, and rotate.

Tokens and passwords:
- Signatures, token encoding, roles, and the floating-point form of NumericDate. The clock is a parameter.
- Argon2id is any function of fixed result length, and the random salt is a parameter. The constant
  time of comparisons is not modelled.
- Passwords are sequences of bytes, one per character of the model.

The packages `web`, `observability`, `ui`, `migration`, `member`, `group` and `faq`, and the files
`auth/token.go` and `auth/totp.go`, are not part of this model.
