# Verification of the TrustModel Edge core

The Edge is a sidecar that answers "may this agent make this tool call?" from policies it fetches
from a control plane, keeps a copy of those policies on disk, and ships an audit event for every
decision. This project models the parts that carry state or ordering, and proves what they promise:

- **Policy engine** (`values`, `text`, `ordering`, `compiler`, `evaluator`, `rule_meaning`,
  `policy_edits`). Raw rules
  are parsed, stably sorted and scanned first-match. The reference is a declarative semantics on the
  *unsorted raw* rules: the rule that matches and precedes every other matching rule answers. What
  precedes, matches and answers is in turn said on literal keys, actions, priorities and values.
- **Audit queue** (`payload`, `telemetry_table`, `telemetry_protocol`, `telemetry_store`,
  `telemetry_sender`, `telemetry_progress`, `telemetry_drain`). A transition system in which any number of ticks hold
  stale batches while producers, acknowledgements, crashes and restarts interleave; and the store and
  sender as classes whose methods are shown to take exactly those steps.
- **Policy cache and its disk image** (`bundle`, `policy_disk`, `policy_age`, `policy_cache`,
  `policy_sync`). The
  state directory is a map from paths to files and every write, rename and unlink is one step, so a
  crash is a prefix of a list of operations. The cache class carries out those operations on a disk
  that may stop after any of them.
- **Tokens, keys and credentials** (`oauth`, `key_state`, `identity`). Agent tokens under an ideal
  signature, the key pair that a process pins while its key file is overwritten, and enrollment as
  four file writes that commit at the last one.
- **Whole runs** (`decide`, `edge_system`, `edge_runs`, `edge_ages`, `edge_twins`). The decision
  route, and runs that mix startups, syncs that succeed or fail, the clock, key rotations, token requests, deliveries and
  decisions.

`dafny verify dfyconfig.toml` checks all of it.

## Where the code and its comments differ

The model follows the code. Each case has a theorem that says exactly when the comment holds.

- `sync_once` is documented never to raise and to return whether the cycle succeeded. It raises
  when the token mint does, and returns false after the memory was already swapped when persisting
  fails (`PolicySync.SyncOnce`).
- A singular `replace` writes only the legacy file, but a restart prefers any manifest that loads:
  the new policy survives a restart exactly under the condition of `PolicyDisk.LegacyThenLoad`, and
  `PolicyDisk.SingularAfterMultiIsLost` is a family of inputs on which it is lost.
- After `replace_all([])` a restart falls through to an old legacy file
  (`PolicyDisk.RestartRebuildsPayload`).
- `persist_credentials` is documented as atomic. A cut rotation mixes two bundles, and a cut
  enrollment can be taken for credentials, exactly as `Identity.CutRotationMixes` and
  `Identity.CutEnrollmentReused` say.
- The key file is documented as immutable for the life of the pod, but the heartbeat overwrites it.
  Tokens verify all the same, because the first load pins the pair (`KeyState.MintedTokensVerify`).
- Answers given by a fail mode queue no audit event, although the stale-policy module says the
  audit log records the bypass (`Decide.BypassIsNotAudited`); one is queued
  exactly when a policy is routed to and fresh (`Decide.EventReportsAnswer`).
- The client list hoisted by the plural endpoint is documented to be stored for the primary. It is
  fetched and then dropped, and the token endpoint reads the primary policy's own list. The hoisted
  list takes effect exactly under the condition of `PolicySync.HoistedClientsHonoured`;
  `PolicySync.WrapperClientIsRefused` is an input on which it does not, and
  `EdgeRuns.WrapperOnlyEdgeIsSilent` is what that means for a whole run.
- The decision route documents that the token's subject becomes the audited agent. It is the
  client's agent id, and where the client has none, the one that the request body gives
  (`Decide.BodyNamesTheAgent`, `EdgeRuns.AuditedAgent`).
- After a restart the newest file's modification time stands for the age of every policy, so one
  older than the threshold can be served as fresh (`EdgeAges.OldBodyServedAsFresh`). It happens to
  a policy exactly when its file is not among the newest loaded (`EdgeAges.FreshMeansRecentExactly`);
  loaded ages agree exactly when the listed files are of one age (`PolicyAge.AgesAgreeExactly`);
  `PolicyAge.CutsThatSplitAges` says which cuts of a persist make them differ, and
  `EdgeAges.WholePersistsKeepAnswersRecent` that without such cuts it never happens.

## Model

| member | source | states |
|---|---|---|
| Values.PyEqSymmetric | src/edge/engine/evaluator.py:43-45 | Python's equality on decoded JSON, with True equal to 1, is symmetric at any nesting |
| Values.PyEqTransitive | src/edge/engine/evaluator.py:43-45 | that equality is transitive, so two arguments equal to each other satisfy the same expectations |
| Values.EqualExactly | src/edge/engine/evaluator.py:43-45 | what equals a value: a string or None only itself, numbers and booleans those of their quantity, lists item by item, tables entry by entry |
| Text.SpacesAre | src/edge/engine/compiler.py:92 | whitespace is the code points Python counts as such, one by one |
| Text.SplitOfJoin | src/edge/engine/compiler.py:91-92 | splitting on a separator recovers any non-empty list of pieces that do not contain it |
| Text.JoinOfSplit | src/edge/engine/compiler.py:91-92 | joining a split text recovers it and no piece holds the separator, which leaves one possible split |
| Text.WordsOfJoin | src/edge/oauth.py:129 | words joined by one space split on whitespace back into the same words in order |
| Text.WordsOfPadded | src/edge/routes/oauth.py:124 | however a text spaces its words, splitting it gives the words, in order |
| Text.StringLeExactly | src/edge/policy/cache.py:340 | texts are ordered by their first difference, and a text goes before its own extensions |
| Ordering.StableSortUnique | src/edge/engine/compiler.py:110-114 | a list is the result of the sort exactly when it is sorted and keeps every class of ties in its original order |
| Ordering.FirstOfSort | src/edge/engine/evaluator.py:93-95 | the first match in the sorted list is the match of the unsorted list that is least by key, then by position; none exactly when nothing matches |
| Compiler.ParseConditions | src/edge/engine/compiler.py:76-86 | whatever order the keys of a `when` table come in, the pattern holds its presence tests (value exactly True), its equality tests, its tool and its subject attribute |
| Compiler.CompilePolicy | src/edge/engine/compiler.py:57-122 | the loop and the sort build the compiled policy of the specification: every rule parsed, once, stably sorted by (priority, action rank) |
| Compiler.RedactParses | src/edge/engine/compiler.py:88-92 | a redact action names exactly its non-blank pieces, trimmed and in order; empty and blank pieces are dropped |
| Compiler.RedactRoundTrip | src/edge/engine/compiler.py:88-92 | a redact action printed from trimmed, non-empty, comma-free paths with any whitespace around them parses back to the same paths in order |
| Compiler.OtherActionsNameNoPaths | src/edge/engine/compiler.py:88-92 | any action that is not redact followed by a colon names no paths |
| Evaluator.PatternMatchesRaw | src/edge/engine/evaluator.py:38-49 | the compiled pattern matches exactly the calls on which every entry of the raw `when` table holds |
| Evaluator.MeaningIsDeclarative | src/edge/engine/compiler.py:65-114 | compile-then-evaluate is the declarative semantics of the unsorted rules: some rule matches exactly when one decides, the decider's answer is the result, and with no match the result is the fail-safe deny |
| Evaluator.MeaningIsWhatRulesSay | src/edge/engine/evaluator.py:86-111 | the compiled policy returns a result exactly when the unsorted rules say it: the answer of the deciding rule if some rule matches, the fail-safe deny if none does |
| Evaluator.OneRuleDecides | src/edge/engine/evaluator.py:86-111 | as soon as a rule matches, exactly one rule decides the call |
| Evaluator.UnmatchedIsDenied | src/edge/engine/evaluator.py:104-111 | when no rule matches, the verdict is deny under the rule id default.fail_safe |
| Evaluator.AnswerOf | src/edge/engine/evaluator.py:52-83 | a rule answers its own action; a redact rule answers its targeted paths, all of them and in order, or an allow under a marked rule id when there are none |
| Evaluator.AllowOnlyFrom | src/edge/engine/evaluator.py:52-83 | a call is allowed exactly when its deciding rule is an allow rule or a redact rule with no targeted argument present |
| RuleMeaning.DeciderComesFirst | src/edge/engine/compiler.py:110-114 | the deciding rule has the least priority among the matching ones, an absent priority being 100; at equal priority a deny goes before a redact, a redact before an allow and an allow before anything else; then the earlier rule |
| RuleMeaning.DenyOverrides | src/edge/engine/compiler.py:110-114 | when a deny rule matches and no matching rule has a smaller priority, the compiled policy denies, wherever the rule stands |
| RuleMeaning.EntriesConjoin | src/edge/engine/compiler.py:78-86 | a rule matches exactly the calls on which each entry of its table holds by itself; without a table, every call |
| RuleMeaning.ArgEntry | src/edge/engine/evaluator.py:41-45 | exactly when an entry on an argument holds, for each kind of expected value: presence for True, the very value otherwise, and absence too for None |
| RuleMeaning.ToolEntry | src/edge/engine/compiler.py:73-74 | exactly when an entry on the tool holds: always for None and the star, else for the tool of that text |
| RuleMeaning.SubjectEntry | src/edge/engine/evaluator.py:46-48 | exactly when an entry on a subject attribute holds: always for an empty value, else when the attribute is given |
| RuleMeaning.OtherEntry | src/edge/engine/compiler.py:78-86 | an entry under any other key always holds |
| PolicyEdits.InsertionIsLocal | src/edge/engine/compiler.py:110-114 | adding a rule at any position changes no result except by deciding the call itself |
| PolicyEdits.DenyIsMonotone | src/edge/engine/compiler.py:110-114 | adding a deny rule anywhere never lifts a deny |
| PolicyEdits.AllowIsMonotone | src/edge/engine/compiler.py:110-114 | adding an allow rule anywhere never revokes an allow |
| PolicyEdits.ShadowedRulesAreDead | src/edge/engine/evaluator.py:93-95 | any set of rules that sort after an unconditional rule can be deleted without changing any result |
| PolicyEdits.VerdictOrderFreeExactly | src/edge/engine/compiler.py:110-114 | the verdict on a call is the same for every permutation of the rules exactly when all matching rules of the least matching key give one verdict |
| PolicyEdits.ResultOrderFreeExactly | src/edge/engine/compiler.py:110-114 | the whole result is the same for every permutation exactly when all of those rules give one answer |
| PolicyEdits.VerdictIsOrderFree | src/edge/engine/compiler.py:110-114 | so with deny and allow rules only, the verdict is the same for every permutation on every call |
| PolicyEdits.RedactOrderShows | src/edge/engine/evaluator.py:52-75 | and with redact rules it need not be: two redact rules of one key redact a call in one order and allow it in the other |
| PolicyEdits.ResultIsOrderFree | src/edge/engine/compiler.py:110-114 | with distinct sort keys the whole result is the same for every permutation, whatever the actions |
| PolicyEdits.NonInterference | src/edge/engine/evaluator.py:38-75 | calls that agree on presence where a rule tests or redacts and on value where a rule compares get the same result, whatever else their arguments hold |
| TelemetryTable.DeleteCutsPrefix | src/edge/telemetry/store.py:209-214 | deleting a run of ids that starts no later than the oldest row removes a prefix of the queue and nothing else |
| TelemetryProtocol.StepKeepsInv | src/edge/telemetry/sender.py:89-153 | every step of every tick, producer, crash and restart keeps the queue invariant |
| TelemetryProtocol.QueueIsUndeliveredSuffix | src/edge/telemetry/store.py:168-214 | under every interleaving the rows of the table are a suffix of all accepted events in id order, none lost, reordered or duplicated there, and every event before them was in at least one POST answered 2xx, 400 or 422 |
| TelemetryProtocol.AckDeletesOwnRows | src/edge/telemetry/sender.py:126-144 | an acknowledgement, however late, deletes oldest rows only, and of those only rows its own batch posted, same id and same event |
| TelemetryProtocol.IdsAreNeverReused | src/edge/telemetry/store.py:53-61 | two rows of one id, each live or in flight at any two moments of a run with restarts, are the same event |
| TelemetryProtocol.RetriesDescend | src/edge/telemetry/store.py:216-225 | retry counts never increase from head to tail, and each is the number of failed batches the row was in, overlapping ticks included |
| TelemetryProtocol.QueueAccounting | src/edge/telemetry/store.py:168-183 | attempts = accepted + dropped since the restart, accepted = live + deleted across restarts, and the queue never outgrows the larger of its limit and its size at startup |
| TelemetryProtocol.StartsEmpty | src/edge/telemetry/store.py:83-89 | a new database is empty, and a restart keeps the table and its history and forgets only the ticks and the counters of the process |
| TelemetryStore.TelemetryStore.constructor | src/edge/telemetry/store.py:83-89 | opening a database earlier processes wrote to is the protocol's restart step |
| TelemetryStore.TelemetryStore.Enqueue | src/edge/telemetry/store.py:168-183 | is the protocol's enqueue step; accepted exactly below the limit, else the drop counter alone changes |
| TelemetryStore.TelemetryStore.DequeueBatch | src/edge/telemetry/store.py:185-207 | returns the oldest accepted events not yet deleted, as many as the limit allows, each under the id it was accepted with, and removes nothing |
| TelemetryStore.TelemetryStore.Ack | src/edge/telemetry/store.py:209-214 | the rows left are exactly those whose id is not listed, in their old order; none goes for an empty list |
| TelemetryStore.TelemetryStore.MarkRetry | src/edge/telemetry/store.py:216-225 | each listed row counts one more failure and keeps the first 500 characters of the error, its id and event unchanged; every other row stays as it was |
| TelemetrySender.BackoffStep | src/edge/telemetry/sender.py:155-156 | the backoff starts at the flush interval, and each failure doubles it, up to 60 seconds |
| TelemetrySender.BackoffRange | src/edge/telemetry/sender.py:155-156 | the backoff always lies between the flush interval and 60 seconds, whichever is larger |
| TelemetrySender.TelemetrySender.BumpBackoff | src/edge/telemetry/sender.py:155-156 | keeps the field at the closed form for one more failure |
| TelemetrySender.TelemetrySender.FinishTick | src/edge/telemetry/sender.py:94-153 | after any interleaving since its peek, a tick takes exactly the protocol steps of its outcome: on 2xx, 400 and 422 the batch is deleted and its size returned; on another status, a transport error or a mint failure it is marked, 0 is returned and a failure counted; and each answered POST is recorded with its kind of answer |
| TelemetrySender.TelemetrySender.BeginTurn | src/edge/telemetry/sender.py:89-92 | a turn that finds the queue empty changes nothing and sleeps for the backoff as it stands; any other holds its batch as a flight of the protocol |
| TelemetrySender.TelemetrySender.FinishTurn | src/edge/telemetry/sender.py:71-87 | a turn of the loop after its peek, in any interleaving: a sent batch resets the backoff and does not sleep, every other end sleeps for min(flush * 2^k, 60) after k failures since the last reset, those of other ticks included |
| TelemetrySender.TelemetrySender.FlushNow | src/edge/telemetry/sender.py:159-174 | a drain that nothing interleaves with leaves the table, the total and the failures of the drain specification, for any outcomes and any deadline |
| TelemetrySender.FlushTotalIsTheDrop | src/edge/telemetry/sender.py:166-174 | the total returned is exactly the drop in queue length, and what is left is the rest of the queue in order |
| TelemetrySender.BatchesIsCeiling | src/edge/telemetry/sender.py:89-95 | the number of POSTs used for the drain is ceil(n / batch) |
| TelemetrySender.FlushEmptiesTheQueue | src/edge/telemetry/sender.py:126-144 | with every POST answered 2xx, 400 or 422 in time, the drain empties the queue in exactly ceil(n / batch) POSTs |
| TelemetrySender.DrainArithmetic | src/edge/telemetry/sender.py:159-174 | both hold from every state any interleaving can reach |
| TelemetryProgress.RoundRemoves | src/edge/telemetry/sender.py:89-153 | an answered tick takes at least a batch off the queue, or all that was there at its peek, whatever others do before, during and after its POST; a tick that fails in any way loses nothing |
| TelemetryProgress.EventAtPositionLeaves | src/edge/telemetry/sender.py:126-144 | an event at position p is gone after p / batch + 1 answered ticks of one worker, with producers and other ticks running and however many of its own ticks fail in between |
| TelemetryDrain.AckAccounts | src/edge/telemetry/sender.py:126-144 | of an acknowledged batch every row is deleted by this acknowledgement or was deleted before it |
| TelemetryDrain.DrainAccounts | src/edge/telemetry/sender.py:159-174 | with producers and other ticks running, the total a drain returns is the rows it deleted itself plus the rows of its batches that others had deleted already, so it never undercounts |
| TelemetryDrain.DrainAmongProducers | src/edge/telemetry/sender.py:159-174 | with producers running but nobody else acknowledging, the total is exactly the number of rows that left the queue |
| Bundle.LastWinsIsLast | src/edge/policy/cache.py:166-173 | the name map holds exactly the payload's names, each with the last policy of that name |
| PolicyDisk.PersistProgress | src/edge/policy/cache.py:319-336 | whatever prefix of a persist short of the manifest rename is done, each policy file is as before, or a new policy of its own name, or a removed orphan |
| PolicyDisk.TemporariesAreInvisible | src/edge/policy/cache.py:210-286 | temporary files, whole or torn, never change what a restart loads |
| PolicyDisk.LoadNamesExactly | src/edge/policy/cache.py:224-247 | whatever the files hold, a missing or unreadable file is skipped and stops nothing else, and each policy is loaded under the name it carries, the last of each name |
| PolicyDisk.LoadExactly | src/edge/policy/cache.py:193-286 | what a restart makes of any files, case by case: the manifest if it loads anything, with a dangling primary cleared, else the legacy policy as its own primary, else nothing |
| PolicyDisk.CrashBeforeManifest | src/edge/policy/cache.py:308-345 | crash consistency: stopped anywhere before the manifest rename, the loaded names are listed in the old manifest and include every listed one in the new payload that had its file, each body is the old one with the age of its file or a new one of that name, the load counts as old as its newest file, and the primary is the old one or nobody; the legacy file is used only when no listed name could load |
| PolicyDisk.LoadReadsFiles | src/edge/policy/cache.py:224-261 | whatever is on disk, every loaded snapshot is one file, compiled, as old as that file, and the load is as old as the newest of them |
| PolicyDisk.CrashWithoutManifest | src/edge/policy/cache.py:202-204 | with no readable manifest before, a cut persist leaves the legacy file in charge |
| PolicyDisk.PersistThenLoad | src/edge/policy/cache.py:224-262 | round trip: after a completed persist of a non-empty payload, duplicates included, a restart loads exactly the last policy of every name, compiled from it, with the same primary |
| PolicyDisk.NoOrphans | src/edge/policy/cache.py:326-336 | when no unlink fails, the policy files left are exactly those of the payload |
| PolicyDisk.ManifestIsSorted | src/edge/policy/cache.py:338-345 | the manifest of a completed persist lists the names of the payload, each as often as it occurs, sorted |
| PolicyDisk.LegacyThenLoad | src/edge/policy/cache.py:299-305 | after a singular persist a restart rebuilds the new policy exactly when no manifest loads, or the manifest already holds that policy alone as primary |
| PolicyDisk.SingularAfterMultiIsLost | src/edge/policy/cache.py:149 | after any completed multi-policy persist, a singular persist of a policy of another name is lost at the next restart |
| PolicyDisk.RestartRebuildsPayload | src/edge/policy/cache.py:249-250 | a restart after a completed multi-policy persist rebuilds the payload exactly when the payload was not empty or there is no legacy file |
| PolicyDisk.HistoryKeepsDiskOk | src/edge/policy/cache.py:299-345 | any history of singular and multi-policy persists, completed or cut anywhere, keeps the precondition of the crash theorem |
| PolicyAge.CutPersistHidesAge | src/edge/policy/cache.py:259-261 | after a persist cut once it renamed its first file, an untouched policy is loaded with its old body and file age while the whole counts as refreshed with the new file |
| PolicyAge.AgesAgreeExactly | src/edge/policy/cache.py:242-261 | on a disk that persists left, every loaded policy is as old as the load counts exactly when the listed files are of one age |
| PolicyAge.PersistKeepsAge | src/edge/policy/cache.py:299-345 | singular persists, cut or whole, and completed multi-policy persists keep the listed files of one age |
| PolicyAge.CutsThatSplitAges | src/edge/policy/cache.py:319-336 | from listed files of one age, older than the persist, a cut makes their ages differ exactly when it has renewed a listed file and left another, that was there, neither renewed nor removed |
| PolicyCache.RehydratedIsCoherent | src/edge/policy/cache.py:210-286 | whatever files are found, the memory after a load registers each snapshot under its own name with its own compilation, and the primary never dangles |
| PolicyCache.RemoveOrphans | src/edge/policy/cache.py:326-336 | whatever order the directory lists them in, exactly the removable files of other names are unlinked |
| PolicyCache.PersistManifest | src/edge/policy/cache.py:308-345 | the files after it are those of a prefix of the persist's operations, all of them exactly when it succeeds |
| PolicyCache.BuildSnapshots | src/edge/policy/cache.py:166-173 | the built map holds one compiled snapshot per name, of the last policy of that name |
| PolicyCache.PolicyCache.Replace | src/edge/policy/cache.py:131-149 | the memory is the one policy as its own primary, even when the legacy file could not be written |
| PolicyCache.PolicyCache.ReplaceAll | src/edge/policy/cache.py:151-191 | the memory is the whole payload with a missing primary cleared, even when persisting stopped half-way, and the disk then holds a prefix of the persist |
| PolicyCache.PolicyCache.LoadFromDisk | src/edge/policy/cache.py:193-286 | the loops load what recovery specifies from the manifest, else from the legacy file, and a miss changes nothing |
| PolicyCache.NewestOf | src/edge/policy/cache.py:259-261 | the refresh time of a loaded cache is the newest among its files |
| PolicySync.FetchAllFallsBackOnNotFound | src/edge/policy/client.py:102-128 | "no policy" means both endpoints said 404, exceptions escape only from a mint, and the singular endpoint is heard only after a 404 of the plural one, its policy then being the whole payload and the primary |
| PolicySync.FirstFlaggedIsFirst | src/edge/policy/client.py:125-127 | the primary is the first flagged policy, and nobody exactly when none is flagged |
| PolicySync.SingularCycle | src/edge/policy/sync.py:54-80 | reply by reply in singular mode: a valid policy is installed alone as the primary, flagged or not, any other reply changes nothing, and the plural reply never matters |
| PolicySync.MultiCycle | src/edge/policy/client.py:102-128 | reply by reply in multi-policy mode: a valid body is installed by name with the first flagged name as primary, a 404 does what singular mode does, anything else changes nothing |
| PolicySync.SyncOnce | src/edge/policy/sync.py:38-111 | success is reported exactly when both the fetch and every file operation succeed, but the memory is swapped whenever the fetch succeeds; in singular mode a valid reply leaves that policy alone in memory and any other reply changes neither memory nor disk; it raises exactly when a mint does |
| PolicySync.ReportedExactly | src/edge/policy/sync.py:54-111 | what the report of a cycle is worth: raised exactly when a mint raised, never success without a valid reply, and success means that the legacy file holds the policy, or that a restart would rebuild the payload |
| PolicySync.Warm | src/edge/policy/sync.py:114-140 | startup goes on exactly when the whole cycle succeeds, the persist included, or when it fails without raising, success is not required and the cache is warm |
| PolicySync.ClientsAfterPlural | src/edge/policy/sync.py:87 | whatever list the plural endpoint hoists, the clients authorized afterwards are those of the last policy carrying the first flagged name, and none when no policy is flagged |
| PolicySync.HoistedClientsHonoured | src/edge/policy/cache.py:114-125 | the hoisted list is what ends up authorized exactly when it repeats that policy's own list, or is empty when no policy is flagged |
| PolicySync.WrapperOnlyIsRefused | src/edge/routes/oauth.py:96-122 | with clients in the wrapper only, every token request is refused with 401, or with 503 when the payload was empty |
| PolicySync.WrapperClientIsRefused | src/edge/routes/oauth.py:96-122 | an input on which the drop shows: a client in the wrapper with its own secret gets 401, though by the wrapper it would be granted |
| PolicySync.CacheIsLastFetch | src/edge/policy/cache.py:131-191 | after any sequence of cycles in either mode the cache holds, per name of the last payload fetched, its last policy with that policy's own compilation, and no other name; the primary is the payload's; with no fetch nothing changed |
| OAuth.NarrowScopesKeeps | src/edge/oauth.py:255-263 | the grant is the requested scopes that are allowed, all of them, in the order of the request |
| OAuth.FindsFirst | src/edge/oauth.py:201-208 | the client found is the first registered under the id, and none is found exactly when none is |
| OAuth.MintThenVerify | src/edge/oauth.py:106-165 | a token verifies from its mint until just before its expiry (section 4.1.4 of RFC 7519), and gives back the client, the agent and the same scopes in order |
| OAuth.GrantedExactly | src/edge/routes/oauth.py:87-133 | who gets a token and with which scopes: on a warm cache, the first client of the id whose secret checks out and who asks for nothing or for a scope it may have; and which status everybody else gets |
| OAuth.RefusedExactly | src/edge/routes/oauth.py:135-156 | a refusal is passed on, a grant without a key is 503, and an issued token is signed with the key and names the tenant as issuer |
| OAuth.GatePassesExactly | src/edge/routes/decide.py:72-106 | who passes the gate, with which claims: the bearer of claims signed with this key, in date, with govern:enforce in their scope; a missing, foreign, expired or unreadable token is 401, no key 503, no scope 403 |
| OAuth.GateNeedsGovernEnforce | src/edge/routes/oauth.py:124-173 | an issued token presented in date passes the gate exactly when govern:enforce was requested and is allowed to the client, and is otherwise stopped with 403 |
| KeyState.AppState.KeyState | src/edge/routes/oauth.py:51-68 | returns the cached pair, or loads and caches one, or leaves the state alone when there is no key |
| KeyState.AppState.PublicKeyForDecide | src/edge/routes/decide.py:55-69 | looks for the public half only, and caches both halves when it has to load |
| KeyState.AppState.PassGate | src/edge/routes/decide.py:72-106 | the gate looks at the header before it loads the key, and caches the pair it loads whether or not the token then verifies |
| KeyState.GateWithoutKey | src/edge/routes/decide.py:55-90 | which key the gate uses: the cached one whatever the file holds, else that of the file, else it stops |
| KeyState.FirstLoadPins | src/edge/routes/oauth.py:51-68 | the first pair either route loads is the pair of both routes for the rest of the process, whatever happens to the key file |
| KeyState.MintedTokensVerify | src/edge/heartbeat.py:66-86 | key pinning: a token minted at any moment verifies at every later moment until its expiry, however often the key file is overwritten |
| KeyState.IssuedTokensPassTheGate | src/edge/routes/oauth.py:124-173 | from token endpoint to decision across rotations: the gate passes exactly when govern:enforce was requested and is allowed |
| Identity.CredentialStore.Persist | src/edge/identity.py:66-85 | four writes in order, metadata last; cut anywhere, the files are those of the writes that got through |
| Identity.LoadCredentialsExactly | src/edge/identity.py:88-109 | four readable files make a bundle, each file its own part of it, and anything less makes none |
| Identity.BootstrapIfNeeded | src/edge/enroll.py:37-83 | complete, unexpired credentials are reused for every token and reply and nothing is written; otherwise a missing token or a refusal fails without writing, and else the reply is enrolled exactly when all four writes get through |
| Identity.RestartReuses | src/edge/enroll.py:39-46 | after a completed persist and before its expiry, every later startup returns that bundle, whatever the token, the control plane and the disk |
| Identity.HeartbeatState.OneTick | src/edge/heartbeat.py:48-91 | a rotation persisted to the end puts exactly the new certificate, key, chain and expiry in place, in memory and on disk, and keeps edge, tenant and endpoints; nothing else changes the credentials; revocation sticks, and transient errors change nothing |
| Identity.ReturnedWereCompleted | src/edge/identity.py:66-109 | enrollment commits at the metadata file: from missing or expired metadata, over any history of startups and rotations, completed or cut anywhere, and passing time, every bundle a startup returns has the edge, tenant, endpoints and expiry of one persisted to the end, and is such a bundle as a whole unless a rotation was cut since the last completed persist; a process keeps its edge, tenant and endpoints |
| Identity.CutEnrollmentReused | src/edge/enroll.py:39-46 | an enrollment cut between or inside its writes is taken for credentials exactly when older metadata is in date and was not being overwritten, and each of the other three files was there or had been got to |
| Identity.CutRotationMixes | src/edge/heartbeat.py:75-86 | after a rotation cut inside the metadata write nothing is reused; cut anywhere before, the next startup returns new, torn and old texts under old metadata, with the exact conditions under which that is the old bundle or the new one |
| Decide.DecisionCases | src/edge/routes/decide.py:153-218 | exactly when each kind of answer is given, on flag, name, primary and age: evaluation if and only if a policy is routed to and fresh, the fail mode if and only if it is stale or absent by default in open mode, errors otherwise; and what a fail-mode answer says |
| Decide.UnnamedGoesToPrimary | src/edge/routes/decide.py:182-201 | with the flag off, or without a name, a request is decided as if it had none, from the primary snapshot or without a policy, and is never "not found" |
| Decide.NamedGoesToItsPolicy | src/edge/routes/decide.py:158-183 | with the flag on, a name goes to the snapshot of that name, and is "not found" exactly when there is none |
| Decide.EventReportsAnswer | src/edge/routes/decide.py:187-282 | an audit event exists exactly when a policy is routed to and the cache was refreshed within the threshold, and it says what the caller was told, about this tool, naming the token's agent or else the body's |
| Decide.BypassIsNotAudited | src/edge/routes/decide.py:203-218 | an input on which a bypass leaves no record: in open mode a request routed to a stale policy is allowed and the queue is offered nothing |
| Decide.BodyNamesTheAgent | src/edge/routes/decide.py:147-148 | an input on which the audited agent is the one the request body claims: a token of a client without an agent |
| Decide.DecisionNonInterference | src/edge/routes/decide.py:246-270 | requests the policy cannot tell apart get the same answer, and with payload-omit on the same audit event |
| Decide.Edge.Decide | src/edge/routes/decide.py:140-282 | the route gives the specified answer, counts each kind of answer in its own counter, and offers an audit event exactly when a policy was evaluated |
| Decide.VerdictsAddUp | src/edge/routes/decide.py:194-234 | the verdict counters add up to the evaluated and the fail-mode answers |
| EdgeSystem.GateIsBacked | src/edge/routes/decide.py:72-106 | with keys cached, rotated and reloaded in any way before, whoever passes the gate bears a token the token endpoint minted less than its lifetime ago, with the claims it was minted with; tokens the edge signs for the control plane do not pass |
| EdgeSystem.StepKeepsInv | src/edge/routes/decide.py:140-282 | token requests, decisions, syncs cut or whole, failed syncs, key rotations, deliveries, time and reboots keep the log explained, the policy files fetched, the key pair matched, the counters exact and the audit trail in order |
| EdgeRuns.FreshAnswersAreCurrent | src/edge/policy/stale.py:31-40 | in any run, an answer not marked stale is what the unsorted raw rules say, by the declarative relation, of the policy the latest installation before it provides under the routed name, and that installation as a whole counts as refreshed no longer than the threshold before |
| EdgeRuns.AnsweringPolicyWasFetched | src/edge/policy/cache.py:151-286 | from an empty directory, through any syncs, cut persists, crashes and restarts, the policy behind an answer not marked stale was returned as it is by an earlier fetch, at the time its snapshot carries |
| EdgeAges.OwnAge | src/edge/policy/cache.py:259-261 | in any run the policy behind a fresh answer is exactly as old as the installation after a sync, and after a startup as old as the file it was read from, with the installation as old as the newest file and within the threshold |
| EdgeAges.FreshMeansRecentExactly | src/edge/policy/stale.py:31-40 | after a startup, being answered as fresh implies that the answering policy itself is within the threshold, at every moment, exactly when that policy is among the newest loaded |
| EdgeAges.WholePersistsKeepAnswersRecent | src/edge/policy/cache.py:184-191 | in any run in which every multi-policy persist is carried out to its end, the policy behind a fresh answer is itself within the threshold, through restarts and whatever becomes of singular persists |
| EdgeAges.OldBodyServedAsFresh | src/edge/routes/decide.py:203-218 | inputs on which it is not: after a persist cut at its first file and a restart, another listed policy is answered from a body older than the threshold and not marked stale |
| EdgeRuns.ClosedModeAllowsOnlyByRule | src/edge/policy/stale.py:43-47 | in fail mode closed an allow is given only on such a fresh policy, and only when the deciding rule is an allow, or a redact with no targeted argument present |
| EdgeRuns.AnswersAreAuthorized | src/edge/routes/oauth.py:96-156 | in any run, restarts and rotations included, an answer is only given to the bearer of an unexpired token minted earlier, to somebody who presented the id and an accepted secret of a client and asked for govern:enforce, the client being the first of its id then listed by the primary policy of the latest installation, with govern:enforce among its scopes |
| EdgeRuns.MintedTokenIsAnsweredExactly | src/edge/routes/oauth.py:51-68 | a token minted at any moment of a run is answered at any later one, restarts and rotations in between, exactly when it grants enforcement, has not expired, and was signed with the key cached now, or with the one in the key file when none is cached yet |
| EdgeRuns.AuditedAgent | src/edge/routes/decide.py:147-148 | in any run, an accepted event names the agent of the client whose token was presented exactly when that client has one or the request body gives none, and otherwise the body's; and it names the token's subject exactly when that agent, or for lack of one the body's, is called so |
| EdgeRuns.WrapperOnlyEdgeIsSilent | src/edge/policy/sync.py:87 | an edge whose clients are only ever listed in the wrapper of the plural endpoint mints no token and answers nothing, in any run |
| EdgeRuns.AuditAccounting | src/edge/routes/decide.py:187-270 | in any run cache hits = evaluated decisions = enqueue attempts = accepted + dropped, verdicts = cache hits + fail-mode answers, and accepted = queued + deleted across restarts |
| EdgeRuns.AuditTrail | src/edge/routes/decide.py:237-270 | in any run, crashes included, the accepted events report evaluated answers, one each and in order; those queued are the latest of them, and every earlier one was in a POST answered 2xx, 400 or 422 |
| EdgeRuns.OmittedPayloadStays | src/edge/telemetry/payload.py:42-57 | at every moment of any run with payload-omit on, no row queued or in flight carries arguments or a raw subject, nor without a hash key any subject, and two accepted events name one subject exactly when the requests they report did or both subjects are withheld |
| EdgeTwins.ArgumentsDoNotLeak | src/edge/routes/decide.py:222-270 | two runs whose requests differ only in arguments that the policy then routed to cannot tell apart give the same answers, counters and tokens, and with payload-omit on the same audit queue, accepted events and posts |

## Left out

- HTTP, TLS, request routing, form parsing, zstd and JSON encoding: a POST or GET is an outcome, and a model written to JSON is taken to read back as itself.
- RSA, HMAC, PBKDF2, base64 and UUIDs: a signature, a pseudonym and a customer id are terms of their inputs, and the password check is one fixed function of a secret and a hash.
- An Authorization header is already taken apart; a key file that holds no key is an unhandled exception, shown as status 500.
- SQLite itself: each locked call is one atomic step on a table and a process crash loses no committed row. Rotation of corrupt databases and the no-op store are not part of this model.
- The `occurred_at` column, event ids, wall-clock strings and latencies of audit events.
- Torn writes: modelled for temporary files and for the credential files, not inside the other files, which are always renamed into place.
- Policy names that are not file-safe (path separators, case folding, empty or hidden names): different names are different files.
- Failing unlinks are a fixed set of stuck names, and any other failing file operation stops the persist where it is; a run of a process after that goes on with the files as they are.
- Values: JSON numbers are reals without NaN, and the text that `str()` gives for a number, list or table is carried along and not computed.
- Reason texts and error texts: the parts they are formatted from are kept, the wording is not.
- Time is whole seconds in the cache and in staleness, real in the token lemmas and whole seconds again in whole runs, and does not go backwards. In whole runs a persist happens in the second of its fetch.
- The endless loops (`run_forever`, `heartbeat_loop`) are modelled one turn at a time; the deadline of a drain is the number of ticks it leaves time for.
- asyncio locks and the module-level singletons; the sorted name list in log lines and error details.
- Unforgeable signatures: in whole runs, a token under a key of the edge can be presented only if the edge signed it, as an agent token or, without a scope, for the control plane.
- Configuration, logging, Prometheus rendering, health, metrics and stub routes, application lifespan, Helm chart and Dockerfile.
- TelemetrySender.TelemetrySender.FlushNow: as a method it covers a drain with no concurrent tick or producer; with those, TelemetryDrain.DrainAccounts states what it returns, on the protocol.
