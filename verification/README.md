# A verified model of the key management service

The service keeps secrets in one key-value database and serves them over HTTP. This project
models the parts of it whose correctness does not show in any single function:

- **The versioned secret store.** A secret owns one record in each of three key families (the
  secret, its version counter, its update time). Every database update is one atomic
  transaction, but every request handler is several of them. `BigEndian`, `KeyLayout`,
  `Requests`, `Admission`, `Collisions` and `Transactions` model the records, the keys, what a
  handler decides before it touches the store, which requests share a key, and the single
  transactions. `Protocol` runs any number of handlers
  interleaved, one transaction at a time, with arbitrary database failures. `Interleavings`
  says which value a key ends up with and whose version goes with it. `Refinement` shows that
  handlers which run one at a time behave like a simple map, `Isolation` that it is enough if
  handlers *of the same key* do not overlap, `Runs` gives complete runs for what overlapping
  handlers and deletes take away, and `Server` is the imperative form of store and handlers,
  tied to the transition system for every pattern of failures.
- **The signing-key cache** (`Jwks`, `JwksProgress`, `JwksAlone`): goroutines with program counters, a
  reader-writer lock, a refresh mutex and a clock, and the same cache as an object.
- **The audit pipeline** (`Audit`, `ActorId`): a bounded queue, producers that drop when it is
  full, one writer, a barrier, and the composite actor id.
- **The threshold client** (`Quorum`, `KeyBuffer`): fan-out, early return, quorum overlap, and the
  key that is copied and cleared in memory.
- **The readers and writers of text** (`Listing`, `Addressing`, `EnvFile`, `Tokens`): the metadata
  listing, client and server spelling the same address, the env file, and the list readers.

A run is a sequence of choices (`Exec(s, cs)`), so a lemma about all `cs` is a claim about every
interleaving. What a run did (which bumps succeeded, which entries were accepted, who asked the
network) is computed from the choices and not recorded by the steps, except for the history of
installed documents in `Jwks`, which no step looks at.

`dafny verify dfyconfig.toml` checks the whole project.

## Where the code gives less than its words

- The version is called monotonic (`versioning.go:4`, `versioning.go:33`). It is, between deletes:
  DELETE removes the counter, and `Protocol.CounterCountsBumps` states what holds across deletes. A
  PATCH that once succeeded therefore succeeds again, and restores its old value, after a DELETE
  and as many new writes as it expects (`Runs.ReplayAfterRecreate`). `Protocol.CommitsExactly` says
  exactly when a PATCH commits, `Protocol.SecondCommitNeedsReset` that nothing but a delete in
  between lets two commit on one version.
- "PATCH is update-only by contract" (`embed.go:700-701`) fails when a DELETE of the same key runs
  between the check and the put: `Runs.PatchMayCreate` gives the run,
  `Interleavings.PatchCreatesExactlyAfterRemoval` the exact condition on a run, and
  `Interleavings.OnlyPostCreates` and `Isolation.IsolatedKeyRefines` what holds nevertheless.
- Replaying a POST is said to be safe (`versioning.go:10-11`, `versioning.go:16-18`). It is an
  unconditional write, and one that is served again after a PATCH takes the PATCH's value back
  (`Runs.ReplayedPostReverts`). Which value a key holds is stated by
  `Interleavings.SecretIsLastWrite`.
- Two crossing POSTs can leave the value of the one that was told the *earlier* version
  (`Runs.ValueMayLagVersion`), and so can two PATCHes, although both comparisons succeeded
  (`Runs.PatchMayLagVersion`). Value and version belong together exactly when the last put and the
  last bump are the same handler's (`Interleavings.ValueBelongsExactly`).
- A GET reads value and version in two transactions, and a write that crosses it can tear the pair
  (`Runs.ReadMayBeTorn`). `Interleavings.ReadIsSnapshotExactly` says exactly when the store held the
  pair: at a given moment between the reads, and at any moment at all.
- POST ignores a failed bump and answers 201. When the commit is what failed it even reports the
  version it did not write, which the next write is told again
  (`Interleavings.LostBumpIsReported`).
- Coordinates do not determine their keys alone as soon as one of the three holds a slash
  (`KeyLayout.KeysUnsharedExactly`), and POST accepts slashes in all three; the environment's
  characters it does not check at all. Two admitted POSTs then write one key (`Collisions.SlashInNameCollides`): a
  slash-free environment and name do not help when the path has a slash, because somebody else's
  name may have one. `Collisions.WriterAloneExactly` is the exact condition among POSTs that are
  admitted. Among parsable coordinates keys are unique.
- The list handler confines the *keys* it scans to the organisation. The `path` column of a row may
  still lie above the listed path (`Listing.RowPathUnderExactly`). And the organisation may itself
  hold a slash, so that one organisation's root can lie under another's
  (`Listing.ListingsDisjoint`).
- The comment on `safePath` (`embed.go:1157`) does not mention that a segment `.` is refused too. The
  model follows the code.
- `sync` is documented to wait until entries are persisted (`audit.go:198-199`). It also returns when
  their inserts failed (`Audit.SyncMissesFailedInsert`, `Audit.PersistedExactly`).
- The actor id of a well-formed subject can coincide with that of a malformed one, for issuers of
  the form `unverified:A:B` and no others (`ActorId.ForgeableExactly`).
- The env file is readable exactly when all names are identifiers, which the tool does not require
  (`EnvFile.FileRoundTrip`).
- A second `Unlock` replaces the key in memory without clearing the first one
  (`KeyBuffer.Client.Unlock`).

## Model

| member | source | states |
|---|---|---|
| `BigEndian.Int64RoundTrip` | versioning.go:92-94 | every 64-bit integer, negative ones included, is read back from its eight-byte record |
| `BigEndian.RecordRoundTrip` | versioning.go:52-58 | every eight-byte record is the record of the integer it decodes to |
| `BigEndian.MostSignificantFirst` | versioning.go:93 | the leading byte decides: a record with a smaller first byte decodes to a smaller number |
| `BigEndian.RecordIsTwosComplement` | versioning.go:52-58 | which integer eight bytes stand for: the number they spell, first byte highest, less 2^64 when the first byte is 128 or more |
| `BigEndian.WrittenBytes` | versioning.go:92-94 | an integer is written as the only eight bytes that spell it, or spell it plus 2^64 when it is negative |
| `KeyLayout.ParseRel` | secrets_list.go:115-132 | an accepted relative key is reprinted exactly, and its coordinates are non-empty with slash-free env and name |
| `KeyLayout.ParseOfRel` | secrets_list.go:115-132 | parsing undoes printing if and only if path, env and name are non-empty and env and name hold no slash |
| `KeyLayout.RelInjective` | versioning.go:36-38 | with slash-free env and name, two coordinates print the same iff they are equal, whatever the path |
| `KeyLayout.DbKeyInjective` | secrets_list.go:138-140 | the three key families are disjoint and injective in the relative key |
| `KeyLayout.StorageKeys` | secrets_list.go:136-140 | the three full keys of a secret, written out |
| `KeyLayout.DistinctCoordinatesDistinctKeys` | secrets_list.go:136-140 | distinct parsable coordinates never share a secret, version or update-time key |
| `KeyLayout.KeysUnsharedExactly` | versioning.go:36-38 | coordinates have their keys to themselves iff neither path, env nor name holds a slash; otherwise other coordinates share every key |
| `KeyLayout.FamilyPut` | versioning.go:94 | setting one full key changes one family at one relative key and nothing else |
| `KeyLayout.FamilyDelete` | versioning.go:103 | deleting one full key removes one relative key from one family and nothing else |
| `Text.TrimSpaceOfBlank` | embed.go:514-522 | trimming leaves nothing iff there is nothing but white space, so the environment test is a test for a blank |
| `Text.SpacesListed` | embed.go:515 | white space is the twenty-five characters that Unicode calls so |
| `Requests.OneOrgPerToken` | embed.go:1098-1115 | without an administrator role among the roles of the token it reaches its own, non-empty organisation and no other |
| `Requests.AdminRoleExactly` | embed.go:1107-1115 | a role makes an administrator iff it is one of three names in any case with only white space around it |
| `Requests.SafePathSplits` | embed.go:1158-1181 | a joined path is safe iff both sides are safe and non-empty |
| `Requests.SafePathChars` | embed.go:1169-1178 | a safe path holds only safe characters and slashes |
| `Requests.SplitSecretPath` | embed.go:1143-1154 | an accepted tail is its path, a slash and a slash-free name |
| `Requests.SplitOfJoined` | embed.go:1143-1154 | the server recovers path and name iff both are safe and non-empty and the name has no slash |
| `Requests.ResolveExpectedExactly` | embed.go:674-698 | exactly which header and body versions give an expected version, and which give 428 |
| `Requests.RefusedExactly` | embed.go:539-698 | exactly when a request gets 401, 403, 400 or 428, and when it reaches the store |
| `Requests.AdmitSound` | embed.go:514-698 | an accepted PATCH carries the non-negative version its header or body named; an accepted write names a non-blank env |
| `Requests.SameKeyAcrossVerbs` | embed.go:538-776 | POST, GET, PATCH and DELETE with the same addressable coordinates act on the same key |
| `Admission.CanActExactly` | embed.go:1098-1115 | a token acts on an organisation iff one of its roles spells an administrator, in any case inside white space, or the organisation is its own and has a name |
| `Admission.SafePathExactly` | embed.go:1156-1181 | a path is safe iff it is empty or each segment consists of letters, digits, underscores, hyphens and full stops and is neither empty nor one or two full stops |
| `Admission.PostAcceptedExactly` | embed.go:577-620 | for every POST: exactly when it is accepted, and the key and value it writes |
| `Admission.GetAcceptedExactly` | embed.go:539-568 | for every GET: exactly when it is accepted, and the key it reads, in environment `default` when the query names none |
| `Admission.DeleteAcceptedExactly` | embed.go:741-766 | the same for every DELETE |
| `Admission.PatchAcceptedExactly` | embed.go:631-707 | for every PATCH: exactly when it is accepted, the environment of the body going before that of the query, and the key, value and expected version it then has |
| `Admission.DefaultEnvironment` | embed.go:556-562 | GET and DELETE without an environment act on the key of a POST to `default` |
| `Collisions.SlashInNameCollides` | embed.go:599-620 | for all safe, non-empty parts, a POST with a slash in the name and a POST with a slash in the path are both admitted and write one key |
| `Collisions.WritableIsAdmitted` | embed.go:590-610 | the coordinates of admitted POSTs are those with a safe path, a safe non-empty name and an environment that is not blank |
| `Collisions.WriterAloneExactly` | embed.go:590-610 | no other admitted POST writes the same key iff path and name hold no slash and the environment has no first segment that could end a path and no last segment that could start a name |
| `Transactions.BumpVersion` | versioning.go:67-97 | a successful bump leaves the returned version readable as the counter, requires the expected one before, and changes no other record; any other outcome changes nothing |
| `Transactions.BumpMovesCounter` | versioning.go:67-97 | through the encoded record, a successful bump returns the new counter, one more than before and than any expected version, and moves no other key or family |
| `Transactions.BumpOutcome` | versioning.go:69-96 | exactly when a bump succeeds and when it reports a mismatch, and the number it hands out next to any other error |
| `Transactions.CounterOfRecord` | versioning.go:42-61 | a record of eight bytes that spell v below 2^63 is version v, and a missing or malformed one is version 0 |
| `Transactions.BumpWritesNext` | versioning.go:88-95 | a successful bump below 2^63 - 1 writes the eight bytes that spell the number after the one found |
| `Protocol.StepMovesCounter` | versioning.go:67-109 | any step of any handler moves a key's counter by a bump, resets it by a delete, or leaves it |
| `Protocol.CounterCountsBumps` | versioning.go:67-109 | in every interleaving, with deletes and faults, the counter is the number of successful bumps since the last delete (on top of the start value if none), which returned consecutive versions, in 64-bit arithmetic |
| `Protocol.VersionsGapFree` | embed.go:577-739 | in every delete-free interleaving below 2^63 the successful bumps of a key return pairwise distinct, increasing, gap-free versions |
| `Protocol.AtMostOneCommit` | embed.go:707-720 | of all PATCHes expecting one version of a key at most one commits, however they interleave, until the key is deleted |
| `Protocol.SecondCommitNeedsReset` | versioning.go:88-109 | two commits on one version of a key have a deletion of its version record between them |
| `Protocol.CommitsExactly` | versioning.go:67-97 | in every run from an empty store a fault-free compare-and-set expecting e succeeds iff e is the number of counted writes since the key's last reset |
| `Protocol.PassedVersionStaysPassed` | versioning.go:88-91 | without a delete, a version the counter has passed stays passed |
| `Protocol.PatchAlwaysCompares` | embed.go:674-698 | in no run does a PATCH reach the bump with the comparison switched off |
| `Protocol.ReplayHasNoEffect` | embed.go:702-720 | once the counter has passed e, every handler but the winner of e is harmless as a PATCH expecting e, in flight or yet to arrive and while the winner still writes: in every run without a reset each of its steps leaves all three families unchanged, and its compare-and-set ends in the conflict |
| `Protocol.LosersHaveNoEffect` | embed.go:707-720 | the same from the very step in which the winner commits, for every other handler |
| `Protocol.NestedStep` | embed.go:616-736 | one step of any handler keeps the nesting at a key, including what each program counter relies on |
| `Protocol.FamiliesStayNested` | embed.go:616-736 | at every step of every run in which no DELETE of the key arrives and no POST of it loses its bump, its update time has a version and its version a secret, whatever happens to other keys |
| `Interleavings.SecretIsLastWrite` | embed.go:616-770 | after every interleaving a key holds the value of its last successful put, or nothing if it was removed last |
| `Interleavings.PatchCreatesExactlyAfterRemoval` | embed.go:699-733 | a PATCH that found its secret creates a key iff the last event on it since then was a removal |
| `Interleavings.OnlyPostCreates` | embed.go:699-706 | in every interleaving, a key that is absent while no writer is past its check stays absent unless a POST of it arrives |
| `Interleavings.ValueBelongsExactly` | embed.go:616-732 | in every run, with deletes and faults, the handler whose value is stored was given the current version iff the last successful bump is its own, too |
| `Interleavings.BumpsAreTold` | embed.go:622-739 | the version a bump returned to a handler is the one in its answer, unless its put fails |
| `Interleavings.ReadIsSnapshotExactly` | embed.go:563-573 | a GET answers with the value of its first and the version of its second read; exactly at which moments between them the store held that pair, and exactly when it did so at all |
| `Interleavings.LostBumpIsReported` | embed.go:622-629 | a POST whose bump fails to commit reports the version the next bump will return, and may leave an update time without a version |
| `Runs.PatchMayCreate` | embed.go:702-773 | a run from the empty store and three requests, all answered with success: a DELETE between compare-and-set and put, after which the key has a secret and no version |
| `Runs.ValueMayLagVersion` | embed.go:616-629 | a run of two POSTs that leaves the value of the one told the earlier version |
| `Runs.PatchMayLagVersion` | embed.go:707-732 | a run of two PATCHes that win 1 to 2 and 2 to 3 and put in reverse order: the first value stays under version 3 |
| `Runs.ReadMayBeTorn` | embed.go:563-573 | a run in which a GET answers with the old value and the new version, and a PATCH with that version succeeds |
| `Runs.ReplayAfterRecreate` | versioning.go:8-18 | a PATCH served again after DELETE and POST is accepted again and restores its old value |
| `Runs.ReplayedPostReverts` | versioning.go:8-18 | a POST served again after a PATCH restores the value it carried, as version 3 |
| `Runs.RequestsBegin` | embed.go:538-776 | requests that start these handlers exist for all addressable coordinates |
| `Refinement.FinishAnswers` | embed.go:538-776 | every request is answered within four transactions, whatever fails |
| `Refinement.FinishIsUninterrupted` | embed.go:538-776 | running a handler to its end is the run of the transition system in which it is not interrupted |
| `Refinement.RequestRefines` | embed.go:538-776 | one uninterrupted request has exactly the effect and answer of one step of the simple map, and keeps the three domains equal |
| `Refinement.ServeRefines` | embed.go:538-776 | so has every sequence of requests |
| `Refinement.TableCountsWrites` | versioning.go:13-18 | after any sequence a key is there iff written since its last delete (or there before and never deleted), with the last value written and a version counting those writes |
| `Refinement.ServerCountsWrites` | versioning.go:99-100 | the same for the server itself from an empty store: equal domains, last value, version equal to the number of writes since the last delete, so a re-created key starts at 1 |
| `Refinement.ReadsTable` | embed.go:563-573 | GET answers with that value and version, or 404 |
| `Refinement.OnlyPostCreates` | embed.go:699-706 | requests served one by one without a POST of an absent key leave no record of it in any family |
| `Isolation.FirstStep` | embed.go:563-770 | the first transaction of a request leaves the store showing the request's effect on the simple map as far as it has come, and commits it to the specified answer |
| `Isolation.LaterStep` | embed.go:569-775 | every later transaction carries that on to the full effect and the same answer |
| `Isolation.OtherKeysAlone` | versioning.go:36-38 | a step never touches the records of another key, whatever fails |
| `Isolation.IsolatedKeyRefines` | embed.go:538-776 | in every interleaving in which handlers of one key do not overlap, that key's three records end as the simple map after its requests in the order they began, whatever other keys do |
| `Isolation.IsolatedAnswers` | embed.go:538-776 | and each of these requests gets the answer the simple map gives at that point |
| `Isolation.IsolatedKeyCountsWrites` | versioning.go:99-109 | from an empty store such a key has all its records or none, the last value written since its last delete, and a version counting those writes |
| `Server.Database.GetSecret` | embed.go:563 | the read finds exactly the record of the secrets family |
| `Server.Database.PutSecret` | embed.go:616 | the put changes exactly that record, or nothing on a fault |
| `Server.Database.DeleteSecret` | embed.go:766 | the delete removes exactly that record, and fails when it is not there |
| `Server.Database.ReadVersion` | versioning.go:42-61 | the counter, zero when absent, malformed or unreadable |
| `Server.Database.BumpVersion` | versioning.go:67-97 | on full string keys, exactly the modelled transaction, including the number handed out next to an error |
| `Server.Database.DeleteVersion` | versioning.go:101-109 | removes the version record of the key and nothing else |
| `Server.Database.WriteMtime` | secrets_list.go:145-151 | writes the update time of the key and nothing else |
| `Server.Database.DeleteMtime` | secrets_list.go:178-186 | removes the update time of the key and nothing else |
| `Server.Database.HandleGet` | embed.go:563-574 | answers as the uninterrupted GET of the transition system |
| `Server.Database.HandlePost` | embed.go:616-630 | new store and answer are those of the uninterrupted POST, for every pattern of faults |
| `Server.Database.HandlePatch` | embed.go:702-739 | new store and answer are those of the uninterrupted PATCH, for every pattern of faults |
| `Server.Database.HandleDelete` | embed.go:766-775 | new store and answer are those of the uninterrupted DELETE, for every pattern of faults |
| `Server.Database.Handle` | embed.go:538-776 | any request on the real store is one uninterrupted run and, when nothing fails, one step of the simple map with its answer |
| `Refinement.GetSteps` | embed.go:563-576 | what GET answers in every store and for every pattern of faults: without the secret nothing is found, whatever the other families hold |
| `Jwks.FillKeys` | jwks.go:112-126 | the loop computes the key set |
| `Jwks.KeySetExactly` | jwks.go:112-152 | per key id, modulus and exponent of the last entry with that id that is RSA, for signatures or for no stated use, with decodable numbers and an exponent below 2^63; nothing for other ids |
| `Jwks.Cache.Refresh` | jwks.go:88-135 | replaces keys and expiry together, or neither when the fetch failed or held no usable key |
| `Jwks.Cache.Resolve` | jwks.go:45-86 | answer, keys and expiry for every outcome of the three checks and of the fetch, when nobody crosses the call |
| `Jwks.StepKeepsLocks` | jwks.go:51-80 | each lock is held by exactly the calls whose program counter says so, after any step |
| `Jwks.MutualExclusion` | jwks.go:60-63 | at most one call is inside the refresh, and nobody reads during a replacement |
| `Jwks.HitIsFresh` | jwks.go:50-58 | under the read lock a hit comes from the last installed document, installed less than the TTL ago |
| `Jwks.RunKeepsInv` | jwks.go:45-135 | locks, keys, expiry and carried documents stay coherent in every run |
| `JwksProgress.EveryRunIsSafe` | jwks.go:45-135 | in every run: one refresher at most, no read during a write, readers see keys and expiry of the same fetch, and every key handed out comes from an installed document |
| `JwksProgress.HitIsCurrent` | jwks.go:23-73 | in every run a fast-path or double-check hit comes from the latest document, less than fifteen minutes old |
| `JwksProgress.FreshIsHit` | jwks.go:23-73 | in every run a key of the latest document is a hit until fifteen minutes after its installation |
| `JwksProgress.SlowAnswerFromOwnFetch` | jwks.go:75-85 | in every run the answer after a refresh is looked up in the document that the same call fetched |
| `JwksProgress.FailedRefreshChangesNothing` | jwks.go:88-129 | a failed or empty refresh makes the call fail and changes no shared data; only a call with a usable fetched document does |
| `JwksProgress.NoDeadlock` | jwks.go:51-86 | while a call is unfinished, some call can step |
| `JwksProgress.QueuedWriterGoesFirst` | jwks.go:130-133 | while a writer is queued no reader is let in |
| `JwksProgress.AllCallsCanFinish` | jwks.go:51-86 | from every state with the invariant all calls can be run to their end within a bound |
| `JwksProgress.EveryRunCanFinish` | jwks.go:51-86 | so from the end of every run, whatever the network answers |
| `JwksProgress.StepsBounded` | jwks.go:51-86 | in every run the calls take at most as many steps as their ranks add up to, plus 18 for each arrival |
| `JwksProgress.EverySchedulerFinishes` | jwks.go:51-86 | from the end of every run, without new arrivals, every schedule has finished every call once it has made as many useful choices as the ranks add up to, whether calls are answered from the cache, fail or fetch |
| `JwksProgress.UsefulChoiceExists` | jwks.go:51-86 | at the end of every run such a choice exists |
| `JwksProgress.FetchesBounded` | jwks.go:60-77 | requests for a key id fetch at most once more, and not at all if a document is installed or on its way |
| `JwksProgress.AtMostOneFetch` | jwks.go:60-77 | if every document has the key id and the clock stays in one TTL of the first install, all requests for that id together fetch at most once |
| `JwksAlone.AloneIsResolve` | jwks.go:45-135 | in the transition system, a call that starts among free locks and is not crossed ends with the answer, keys and expiry of the cache object, and leaves the locks free |
| `Audit.FirstInFirstOut` | audit.go:131-188 | accepted entries are handled in order of acceptance, and the rows are those handled that are no sentinel and did not fail |
| `Audit.Conservation` | audit.go:133-188 | offered entries = rows + failed inserts + still queued + dropped, and the queue never exceeds 1024 |
| `Audit.CountersCount` | audit.go:167-196 | the two counters are the numbers of rows and of dropped calls modulo 2^64 |
| `Audit.DropsExactlyWhenFull` | audit.go:177-188 | in every run `record` drops iff 1024 entries are queued, and queues the entry last otherwise |
| `Audit.NoSentinelStored` | audit.go:150-157 | no entry with method `__sync__` is ever stored |
| `Audit.StoppedForGood` | audit.go:144-145 | once the context is done nothing is handled, stored or acknowledged any more |
| `Audit.NeverClosesTwice` | audit.go:150-170 | the writer never closes a channel that is already closed |
| `Audit.ClosedByHandling` | audit.go:150-170 | a channel is only closed by handling the entry that carries it |
| `Audit.ClosedExactly` | audit.go:150-170 | in every run exactly the channels of handled entries are closed: a sentinel's always, any other's unless its insert failed |
| `Audit.QueueHandled` | audit.go:198-215 | when a `sync` call has returned, everything queued before its sentinel has been handled |
| `Audit.SyncIsABarrier` | audit.go:198-215 | in every run, when `sync` has returned every entry accepted before its sentinel was written or failed its insert |
| `Audit.SyncReturns` | audit.go:198-215 | in every run a waiting `sync` comes back once a running writer has had as many rounds as entries were queued |
| `Audit.PersistedExactly` | audit.go:198-215 | when `sync` has returned, the rows begin with those entries accepted before it whose insert succeeded, and these are all of them iff none of their inserts failed |
| `Audit.SyncMissesFailedInsert` | audit.go:158-166 | a run in which `sync` returns and nothing has been stored |
| `Audit.Auditor.RecordEntry` | audit.go:177-188 | one `record` step of the pipeline, queued or counted as dropped; the object stays in the state its history leads to |
| `Audit.Auditor.BeginSync` | audit.go:204-208 | a `sync` call gets a channel of its own |
| `Audit.Auditor.SendSentinel` | audit.go:209-213 | the sentinel is queued iff there is room |
| `Audit.Auditor.AwaitAck` | audit.go:214-215 | the wait ends only when the channel is closed, and then everything accepted before the sentinel has been handled |
| `Audit.Auditor.Round` | audit.go:146-171 | one round of the writer is one write step of the pipeline, and a channel it closes is open |
| `Audit.Auditor.Run` | audit.go:142-172 | any number of rounds of the writer, and its end when the context is done, are that run of the pipeline |
| `Audit.Auditor.Stats` | audit.go:191-196 | over the life of the object: rows and calls dropped, modulo 2^64, which with failed inserts and the queue account for every entry offered |
| `ActorId.KnownSubjectChars` | audit.go:48 | a subject that matches the pattern is non-empty, trimmed and free of colons |
| `ActorId.KnownSubjectExactly` | audit.go:48 | the pattern: one of eight kinds, an underscore, one or more lower-case letters, digits, underscores and hyphens |
| `ActorId.ComposeExactly` | audit.go:222-235 | the id: trimmed and defaulted issuer, colon, subject, with a flag in front iff the subject does not match |
| `ActorId.KnownActorsUnambiguous` | audit.go:222-235 | two actors with matching subjects share an id iff issuer and subject agree after trimming and defaulting |
| `ActorId.ForgeableExactly` | audit.go:222-235 | the id of a matching subject equals that of some non-matching one iff its issuer reads `unverified:A:B` with usable parts |
| `ActorId.OrdinaryIssuersSafe` | audit.go:217-235 | an issuer that does not start with the flag never shares an id with an unverified actor |
| `Quorum.AcceptedConfig` | sdk/go/client.go:74-86 | a configuration is accepted iff it names an organisation and asks for a node, and no call of its size can fail without a recorded cause, that is iff the threshold is at most the number of nodes |
| `Quorum.RejectedExactly` | sdk/go/client.go:75-86 | which of the four rules a rejected configuration is told |
| `Quorum.OrderIrrelevant` | sdk/go/client.go:259-268 | the number of successes does not depend on the order of arrival |
| `Quorum.FaultRecorded` | sdk/go/client.go:263-264 | a cause is recorded iff some answer failed |
| `Quorum.LastFaultExactly` | sdk/go/client.go:263-264 | the cause kept is that of the failed answer that arrived last |
| `Quorum.FirstBodyExactly` | sdk/go/client.go:329-331 | the body kept is that of the successful answer that arrived first |
| `Quorum.Broadcast` | sdk/go/client.go:259-275 | succeeds iff at least threshold answers did; a failure with threshold at most the number of nodes has a cause |
| `Quorum.QuorumGet` | sdk/go/client.go:318-339 | the early return has the verdict of counting everything, exactly threshold successes read, and the first successful body |
| `Quorum.EarlyVerdictStands` | sdk/go/client.go:332-334 | whatever the unread answers are, the verdict of an early return is right |
| `Quorum.NobodyBlocks` | sdk/go/client.go:288-316 | in every run no worker blocks on its send, also after an early return, and an unfinished collector has something to wait for |
| `Quorum.FinishedVerdict` | sdk/go/client.go:244-339 | a finished broadcast has heard each node once, a finished read has a quorum or has heard every node, and a failure has a cause |
| `Quorum.StopsOnce` | sdk/go/client.go:322-335 | there is one place only at which a quorum read can stop |
| `Quorum.LoopStopsWhereReadStops` | sdk/go/client.go:318-339 | in every run that has finished, the loop over what was received and whatever the other nodes would have answered stops exactly where the collector stopped |
| `Quorum.QuorumsOverlap` | sdk/go/client.go:259-335 | with more than half as threshold, any successful broadcast and any successful read share a node |
| `KeyBuffer.Client.Unlock` | sdk/go/client.go:145-162 | installs the derived key in a fresh array, or changes nothing |
| `KeyBuffer.Client.Lock` | sdk/go/client.go:165-173 | zeroes the live array and forgets it |
| `KeyBuffer.Client.GetCek` | sdk/go/client.go:202-213 | hands out a fresh array with the live contents, never the live array; fails iff locked |
| `KeyBuffer.Client.Operation` | sdk/go/secrets.go:26-31 | an operation sees the live key, leaves it unchanged, and leaves its own copy zeroed |
| `KeyBuffer.Drive` | sdk/go/client.go:145-213 | over every script of unlocks, locks, operations, exports and writes into exported copies, the key behaves like a plain value |
| `KeyBuffer.LiveExactly` | sdk/go/client.go:145-173 | the live key is that of the last successful unlock, and none after a lock |
| `KeyBuffer.SeenExactly` | sdk/go/client.go:182-213 | an operation or an export sees the key that is live at that moment |
| `KeyBuffer.LockedUntilUnlocked` | sdk/go/client.go:164-213 | after a lock every operation fails until a derivation succeeds |
| `Listing.FilterIsMatching` | secrets_list.go:78-94 | the scanned keys that pass are, in ascending order and once each, the stored keys under the path that parse and match the filter |
| `Listing.MatchesExactly` | secrets_list.go:67-88 | the keys a listing is about, written out |
| `Listing.LessExactly` | secrets_list.go:72-78 | key order: the first differing character decides, a prefix comes first |
| `Listing.Collect` | secrets_list.go:72-96 | the coordinates collected are those of the first matching keys up to the cap, and the flag says whether there are more |
| `Listing.Enrich` | secrets_list.go:98-107 | each row gets, from the store as it is when that row is read, the number in its own version record and the positive number in its own update-time record |
| `Listing.List` | secrets_list.go:65-109 | the rows are the first min(n, 10000) in key order of the n keys that matched when scanned, truncated iff n > 10000, each re-rendering to its stored key and carrying the numbers in that key's own records |
| `Listing.ResolveExactly` | embed.go:795-828 | exactly which organisation, prefix and filter lead to a scan, and of which path |
| `Listing.RefusedScopeExactly` | embed.go:795-828 | exactly when a listing is refused with 403; every other refusal is a 400 |
| `Listing.ListingConfined` | embed.go:806-822 | every key of a granted listing lies under the organisation's root |
| `Listing.ListingsDisjoint` | embed.go:795-822 | the listings of two organisations share no key iff the names differ and neither continues the other after a slash |
| `Listing.RowPathUnderExactly` | secrets_list.go:115-132 | a row's path lies under the listed path iff at least two segments follow it in the key |
| `Addressing.UnescapeOfEscape` | sdk/go/kmsclient/client.go:293-296 | decoding undoes percent-encoding for every byte string |
| `Addressing.EscapeCharExactly` | sdk/go/kmsclient/client.go:293-309 | a kept character stands for itself, a space in a query is a plus sign, anything else a percent sign and two upper-case digits |
| `Addressing.KeptExactly` | sdk/go/kmsclient/client.go:293-309 | which characters are kept in a path segment and in a query |
| `Addressing.RestOfExactly` | sdk/go/kmsclient/client.go:287-292 | slashes around path and name do not count |
| `Addressing.SecretPath` | sdk/go/kmsclient/client.go:286-302 | the in-place loop over the segments escapes the joined tail and spares its slashes |
| `Addressing.ServerRecovers` | sdk/go/kmsclient/client.go:286-302 | for every writable path and name, the server splits the client's URL back into them iff the path is non-empty and the name slash-free |
| `Addressing.ReadReachesWrite` | sdk/go/kmsclient/client.go:304-310 | the client's GET and DELETE reach exactly the key its PUT wrote in the configured environment |
| `Addressing.QueryIsOneValue` | sdk/go/kmsclient/client.go:309 | the escaped environment cannot end or split the query |
| `EnvFile.ReadOfQuote` | cmd/kms-fetch/main.go:302-307 | a shell reading the quoted value before any text gets the value and stops at the closing quote |
| `EnvFile.MarksExactly` | cmd/kms-fetch/main.go:302-307 | the writer marks exactly the characters that do not stand for themselves between double quotes |
| `EnvFile.IdentifierExactly` | cmd/kms-fetch/main.go:158-161 | the names a shell takes: letters, digits and underscores, no digit first |
| `EnvFile.WriteEnvFile` | cmd/kms-fetch/main.go:151-166 | the generated file reads back as the same name-to-value map iff all names are identifiers |
| `EnvFile.FileRoundTrip` | cmd/kms-fetch/main.go:158-161 | the same for the rendering itself, whatever the order of the names |
| `Tokens.SplitConsensusList` | consensus.go:137-157 | the loop returns the tokens of the text |
| `Tokens.TokensConcat` | consensus.go:143-150 | splitting at a delimiter splits both sides on their own |
| `Tokens.TokensOfRender` | consensus.go:134-157 | tokens with non-empty delimiter runs between them, and any around them, are returned exactly |
| `Tokens.OnlyTokens` | consensus.go:143-155 | every returned element is non-empty and free of delimiters |
| `Tokens.DelimitersListed` | consensus.go:144 | the five delimiters |
| `Tokens.ParseSpecs` | cmd/kms-fetch/main.go:246-275 | the loop computes the list of specifications, or fails on the first malformed one or on none at all |
| `Tokens.AcceptedExactly` | cmd/kms-fetch/main.go:246-275 | a list is accepted iff no element is malformed and some element is more than white space |
| `Tokens.ItemRoundTrip` | cmd/kms-fetch/main.go:249-269 | one printed specification is read back iff it is well-formed |
| `Tokens.ItemExactly` | cmd/kms-fetch/main.go:248-269 | an element is read as a specification iff it is that well-formed specification with any white space around it and around the equals sign |
| `Tokens.GatherConcat` | cmd/kms-fetch/main.go:247-275 | two lists joined are read as the two results joined, and fail iff one of them does |
| `Tokens.GatherOne` | cmd/kms-fetch/main.go:249-269 | one element alone adds nothing, fails, or adds its specification |
| `Tokens.SpecsRoundTrip` | cmd/kms-fetch/main.go:246-275 | any non-empty list of well-formed comma-free specifications, printed and joined, is read back |
| `Tokens.AcceptedIsNormal` | cmd/kms-fetch/main.go:246-275 | whatever the parser accepts is such a list, and printing and parsing it changes nothing |

## Left out

- VersionsGapFree, PassedVersionStaysPassed: stated for counters that stay below 2^63; beyond it the
  counter wraps to a negative number, which `Protocol.CounterCountsBumps` covers.
- AtMostOneCommit, SecondCommitNeedsReset, LosersHaveNoEffect, ValueBelongsExactly: for fewer than 2^64
  steps or bumps, after which a counter comes round to the same number again.
- ServerCountsWrites, IsolatedKeyCountsWrites, CommitsExactly, ReplayHasNoEffect, ReadIsSnapshotExactly: for
  fewer than 2^63 requests or steps; the general forms are `Refinement.TableCountsWrites`,
  `Protocol.CounterCountsBumps` and `Protocol.StaleRun`.
- FamiliesStayNested: needs POST not to lose its bump, because the code goes on to write the update
  time; every other transaction may fail.
- IsolatedKeyRefines: non-overlap is sufficient, not necessary (two overlapping GETs do no harm); exact
  conditions for the single guarantees are in `Interleavings`. The update time is only tracked as
  present or absent.
- ValueBelongsExactly: is about versions returned by successful bumps. A POST whose bump was lost may
  by coincidence have been told the number that a later write then got (`LostBumpIsReported`).
- ReplayHasNoEffect: a compare-and-set that meets a database fault answers with an internal error and
  not the conflict; it changes nothing either way.
- List: the store's iterator is taken to yield the keys with the prefix in ascending order as of one
  moment, and a failing scan is not modelled.
- Cache.Resolve, Auditor, Handle: the object forms are sequential; the concurrent behaviour is in the
  transition systems, to which they are tied.
- SyncIsABarrier: safety only; nothing is said about a writer that has stopped, behind which `sync` waits
  for ever.
- EverySchedulerFinishes: that enabled calls really are scheduled, and that a fetch returns, is left to the
  Go runtime and the network.
- Operation: the encryption that the copy is used for is not modelled; `Get` and `Delete` encrypt the name
  with a fresh nonce, so no claim is made that `Get` finds what `Set` stored on the nodes.
- Tenant separation by storage key: the organisation in the URL gates a request but is not part of the key.
- HTTP, JSON, routing, header stripping, and the parsing of the `If-Match` text: requests are decoded records.
- Token verification: claims are inputs. Base64 decoding of key parameters: they arrive decoded.
- Cryptography, the store library, the ZAP server, the MPC key manager and the replicator: not part of this
  model. The store is a map with atomic transactions that may fail to read or to commit; its `Delete` of a
  missing secret is taken to fail, as the handler's 404 expects.
- Text is sequences of characters, and bytes where escaping makes the difference; UTF-8 is not modelled.
- The clock, formatting of update times, logging, and a disabled (nil) auditor.
- `getToken`, `FetchEnv`, `splitPathName`, `Status`, the compliance, member, sync and tenant wrappers of the
  client library, the command line programs and the user interface: they repeat what is modelled or are wiring.
