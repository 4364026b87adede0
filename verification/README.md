# Verified model of pg_mooncake

pg_mooncake keeps columnar mirror tables of Postgres tables. This project models the parts of the
extension in which something can go wrong between systems, and proves what they promise:

* **Text the extension hands to another parser** — identifiers, string constants, generated queries and
  the loopback connection URI (`Quoting`, `Identifiers`, `ParseTable`, `Columns`, `UriCodec`, `Loopback`).
  Every writer has the reader of the receiving side beside it (PostgreSQL manual, sections 4.1.1 and
  4.1.2.1 with `standard_conforming_strings` on; RFC 3986, sections 2.1, 2.3, 3.4, 6.2.2.1 and 6.2.2.2).
* **The life of a mirror table** — `create_table` commits a table over a loopback connection, registers it
  with moonlink by RPC, and drops it again when moonlink refuses; the drop trigger unregisters at
  PreCommit. `Stream` holds the retry loop and the guarded stream. `Backend` runs the code of one backend
  as a class over a shared catalog and registry and records the actions it takes; `Effects` holds the
  functions it is proved against. `Lifecycle` is the state machine of any number of backends with every
  interleaving and failure; `CallRuns` and `TransactionRuns` show that what `Backend` records is a run of
  it (`Runs` has the pieces). `Interference` proves how far the assumptions are needed, and `WaitGraph`
  adds who waits for whom.
* **Replication-slot and publication cleanup** — the listing query, the Rust cleanup and the PL/pgSQL
  drop watcher over one server object, with SQL's three-valued logic and LIKE (`SlotCleanup`).

`Basics` holds the shared vocabulary. The Rust loops and the code that changes state are methods proved
against specification functions; the specifications carry the lemmas.

## What the proofs found

* `parse_table` passes the captured text on as it stands: `"Foo"` becomes a name of five characters, and
  `Foo` is not folded. Both readings are cut to 63 bytes, as PostgreSQL cuts every name. The key denotes
  what SQL would read from the input exactly when each component is verbatim: a bare one must start like
  an identifier, show no upper-case ASCII letter within the cut and, unless it follows a dot, be no word
  the reader refuses; a quoted one must start with 127 quotes, so that the cut leaves nothing else
  (`InputDenotesItselfIff`).
* The key sent at drop equals the key registered at creation exactly when both names fit in 63 bytes and
  the creating and the dropping session quote the same of the two names (`DropKeyIsCreateKey`). With
  `quote_all_identifiers` on in one and off in the other even `public.foo` changes its key
  (`SettingChangesTheKey`). A table created, dropped and announced leaves moonlink's registry as it was
  exactly when both names fit (`DropUndoesCreateIff`).
* When all sessions quote alike, a name is safe to create exactly when it fits, or its cut form is taken and
  the call fails (`NameIsSafeIff`); a name of 64 letters leaves moonlink with a table that Postgres does
  not have (`SixtyFourLettersGoAstray`).
* A source without live columns gives a NULL column list, on which the call panics before creating
  anything (`NoLiveColumnsNoMirror`).
* `create_table` keeps its first connection exactly when the source URI denotes the loopback target and
  is in normal form; any other spelling of the same target connects again (`KeepsConnectionIff`).
* A lost reply to CREATE TABLE, a panic of `get_stream`, or a cleanup that fails leaves the new table
  behind; `FateOf` says exactly when, and `Backend.Process.CreateTable` is proved to follow it.
* A caller that holds a lock which its own loopback CREATE TABLE or DROP TABLE asks for waits for itself,
  with an edge that Postgres does not see (`OwnLoopbackDeadlocks`).
* When a transaction's second drop RPC fails, the transaction aborts and Postgres keeps its tables, but
  moonlink has already lost the first: `TransactionMeans` says exactly which tables are lost.
* "Every table moonlink knows is committed", that very table and not just its name, holds over all runs in
  which nobody else drops a table between the commit of its CREATE TABLE and its registration
  (`RegistryIsCommitted`). The assumption is the weakest possible: any step that violates it can be
  continued to a state in which the invariant fails (`InconsiderateStepBreaksIt`).
* One such step is the code's own: `DROP TABLE IF EXISTS` of a rejected call goes by name, and from every
  initial state some run lets it take a table that another call has just created
  (`CleanupTakesAnothersTable`), and then breaks the registry (`CleanupBreaksTheRegistry`).
* If no session drops a table until the call that creates it has returned, a returning call has its own
  table mirrored and a cleanup removes only its own. This assumption is the weakest too: after any drop
  that violates it, some continuation lets the call return without its table or lets its cleanup remove a
  foreign one (`InconsiderateDropHurtsTheCall`).
* That a failing call never removes a table older than itself needs no such assumption
  (`CallSparesOlderTables`).
* A call can end up in a wait cycle exactly when its caller has a transaction id or holds a lock
  (`CanDeadlockIff`): avoiding a transaction id, as the code does, is not enough for a caller that holds
  a lock some writer may ask for.
* When every call is made with neither, a wait cycle that Postgres's own detector does not see exists
  exactly while some transaction's drop RPC is queued in moonlink behind a pending create RPC, which waits
  for that transaction (`CarefulRunsHideCyclesIff`). No caller is ever in such a cycle, but the create RPC
  it waits for is (`CarefulCallDeadlocksIff`).
* The documentation speaks of `moonlink_slot_*`; in `LIKE 'moonlink_slot_%'` both underscores are
  wildcards and the pattern takes in more (`SlotPatternMeans`, `PatternIsNotAPrefix`).
* When `pg_terminate_backend` raises, the PL/pgSQL block skips the drop and the Rust loop goes on; when
  looking up the publication fails, Rust keeps it and PL/pgSQL drops it. The two cleanups leave the same
  slots and publications exactly when neither makes a difference (`CleanupsAgreeIff`).

## Model

| member | source | states |
|---|---|---|
| Quoting.QuoteStringLiteral | src/functions.rs:587-598 | the push loop yields the doubled, enclosed text, which a lexer reads back whole as the input |
| Quoting.EncloseDelimitsItself | src/functions.rs:587-598 | with any text after it, a literal is read as exactly its value with that text left over if and only if the text does not start with another quote |
| Quoting.ReplaceWritesTheSameLiteral | src/functions.rs:257-258 | the other encoder, replace of `'` by `''` between quotes, writes the same literal for every string |
| Quoting.DropSlotQueryCarriesTheName | src/functions.rs:523-526 | for every slot name the drop statement has one fixed shape and one constant whose value is the name |
| Identifiers.ReadNameUndoesQuoteIdent | src/functions.rs:62 | reading a quoted identifier before a dot, a space or the end gives back its first 63 bytes, and so the stored name itself, for any characters, any list of words that are quoted and any reader that refuses only some of them |
| Identifiers.QuoteIdentIsBareIff | src/functions.rs:62 | a name is left bare if and only if it is a lower-case word of letters, digits and underscores that is not one of the quoted words; any other is a delimited identifier that reads back whole |
| Identifiers.ReadQualifiedUndoesQuoteQualified | src/functions.rs:172 | reading the qualified name gives the schema and table text that was quoted, each cut to 63 bytes as SQL cuts every name, dots and quotes included |
| Identifiers.WrittenAlikeIff | src/functions.rs:62 | two sessions that quote different words write two pairs alike if and only if the pairs are equal and both leave the same of the names bare |
| Identifiers.QuoteQualifiedInjective | src/functions.rs:172 | two different (schema, name) pairs are never written alike |
| Identifiers.ClipKeepsExactlyWhatFits | src/functions.rs:271 | the name CREATE TABLE stores is the given one exactly when its UTF-8 form fits the limit |
| Identifiers.StoredNameIsTheLongestPrefix | src/functions.rs:271 | the stored name is the longest prefix of whole characters of at most 63 bytes |
| Identifiers.Utf8WidthIsLeast | src/functions.rs:271 | each character counts as the fewest UTF-8 bytes that can hold it |
| ParseTable.IdentLooks | src/functions.rs:158 | the identifier expression matches exactly the non-empty runs of word characters or dollars and the delimited identifiers with non-empty content |
| ParseTable.ScannerIsTheRegex | src/functions.rs:156-163 | a one-pass scanner without backtracking accepts the same inputs with the same captures as the regular expression |
| ParseTable.GrammarUnambiguous | src/functions.rs:156-163 | no input has two splits into schema and table |
| ParseTable.ParseTableAccepts | src/functions.rs:161-171 | it succeeds exactly when the grammar matches and a schema is named or there is a current one |
| ParseTable.KeyIsTheCapturedPair | src/functions.rs:164-172 | the key is the captured schema and table, quoted in this order; the current schema stands in exactly when none is captured, and without one there is no key |
| ParseTable.PlainInputIsItsKey | src/functions.rs:156-173 | an input `schema.table` of two names that stay bare is its own key, and a bare table alone gets the current schema in front |
| ParseTable.KeyReadsBack | src/functions.rs:156-173 | the key, read by SQL before any text that ends a name, gives back the two names that were quoted, cut to 63 bytes; the names themselves if and only if both fit |
| ParseTable.DropKeyIsCreateKey | src/functions.rs:62 | the key the dropping session sends is the key the creating session registered if and only if both names fit in 63 bytes and both sessions quote the same of them |
| ParseTable.SettingChangesTheKey | src/functions.rs:62 | a session that quotes every word writes another key for public.foo than one that does not |
| ParseTable.KeysIdentifyNames | src/functions.rs:164-172 | two inputs get the same key if and only if they name the same pair |
| ParseTable.InputDenotesItselfIff | src/functions.rs:164-172 | the captured text, cut to 63 bytes, is what SQL reads from the input if and only if each component is verbatim: bare, starting as an identifier, without upper-case letter within the cut and, unless it follows a dot, no word the reader refuses; or quoted and starting with 127 quotes |
| ParseTable.QuotedInputKeepsItsQuotes | src/functions.rs:164-172 | the input `"Foo"` names a five-character table for parse_table and `Foo` for SQL |
| Columns.ColumnQueryCarriesTheName | src/functions.rs:246-259 | for every source name the server sees one query, whose text outside constants is given literally, and five constants, four of them fixed and the last exactly the source key |
| Columns.SourceNameSurvivesBothEncodings | src/functions.rs:257-258 | the literal in the regclass cast yields the key, delimiting itself unless a quote follows, and the key yields schema and table cut to 63 bytes, so the very texts if and only if both fit |
| Columns.LiveAttributesInOrder | src/functions.rs:254-257 | the aggregated rows are exactly the non-dropped user columns, each as often as in the catalog, by ascending attnum |
| Columns.MirrorHasTheLiveColumns | src/functions.rs:246-271 | a quote- and parenthesis-aware reader of the generated CREATE TABLE gives back the mirror's stored names and, by ascending attnum, for each live column its stored name, its type and its NOT NULL flag; column names of a catalog, which fit, are unchanged |
| Columns.UsualTypesAreTypeTexts | src/functions.rs:251 | every type text without quotes that is a word or a word with arguments in parentheses is of the kind MirrorHasTheLiveColumns speaks of |
| Columns.NoLiveColumnsNoMirror | src/functions.rs:260-263 | the call panics on a NULL column list exactly when the source has no live column |
| UriCodec.UriEncode | src/functions.rs:189-206 | the push loop yields the encoding, between n and 3n characters long, so the reserved capacity suffices |
| UriCodec.EncodesOneByte | src/functions.rs:191-203 | a byte is written as itself if and only if it is a letter, a digit or one of `-._~`, otherwise as a percent sign and two upper-case hexadecimal digits |
| UriCodec.EncodeAppend | src/functions.rs:189-206 | encoding distributes over concatenation |
| UriCodec.EncodeLength | src/functions.rs:192 | the length bounds behind the reserved capacity, for all byte strings |
| UriCodec.DecodeUndoesEncode | src/functions.rs:189-206 | percent-decoding gives back every byte string |
| UriCodec.ImageIsNormalForm | src/functions.rs:189-206 | a text is an encoding of some bytes if and only if it is in RFC 3986 normal form |
| UriCodec.EncodeIsTheCanonicalText | src/functions.rs:189-206 | among all percent-encodings of the same bytes the function writes the one that is in normal form |
| UriCodec.EncodedHasNoDelimiter | src/functions.rs:194-203 | no encoding contains a delimiter of the URI |
| Loopback.LoopbackUriReadsBack | src/functions.rs:175-187 | splitting and decoding the URI gives back exactly the database, host, port text and user |
| Loopback.LoopbackUriText | src/functions.rs:181-186 | the text is the format string with the encoded database, host and user and the decimal port in its holes |
| Loopback.ShowIntReadsBack | src/functions.rs:182 | the printed port reads back as the same number, negative ones included, and has no leading zero |
| Loopback.EqualUrisEqualTargets | src/functions.rs:181-186 | two loopback URIs are equal as text if and only if they denote the same database, host, port and user |
| Loopback.KeepsConnectionIff | src/functions.rs:265-269 | for any source URI, whoever wrote it: it equals the loopback URI, so that the connection is kept, if and only if it reads as the loopback target and every value in it is in normal form |
| Stream.Connect | src/utils.rs:30-42 | for every clock and socket: connects exactly when some attempt the deadline allows is answered, sleeps the schedule min(50·2^k, 1000) ms, at most 14 times, tries again after every failure within ten seconds and gives up at the first one past them |
| Stream.AnsweredAtIs | src/utils.rs:30-42 | attempt k is answered after all connects so far, the sleeps 50, 100, 200, 400, 800 and then 1000 ms, and what they overshot |
| Stream.FourteenSleeps | src/utils.rs:30-38 | the scheduled sleeps stay under ten seconds exactly up to the thirteenth |
| Stream.AtMostFifteenAttempts | src/utils.rs:32-42 | whatever the clock does, no sixteenth attempt is made |
| Stream.FifteenAttemptsAreMade | src/utils.rs:32-42 | with an exact clock and a dead socket all fifteen are made: the bound is tight |
| Stream.GivingUpIsFinal | src/utils.rs:35-40 | a failure at or after the deadline is the last attempt |
| Stream.ProbeSocket | src/functions.rs:319-338 | the answer is that of the probing thread at the first look that finds it done, false once more than 250 ms have passed or without a socket; at every earlier look it was not done and 250 ms had not passed; at most 26 sleeps |
| Stream.PolledForIs | src/functions.rs:327-335 | the time polled is ten milliseconds for every sleep and what they overshot |
| Stream.UsableIffNothingWentWrong | src/utils.rs:23-46 | over any sequence of calls in one backend the stream stays usable if and only if its initialisation did not panic and no RPC failed inside a statement holding the guard |
| Stream.RejectedCreateKeepsTheStream | src/functions.rs:34-52 | after any history a rejected create_table leaves the stream as an accepted one does |
| Backend.Process.GetStream | src/utils.rs:23-46 | returns the guard exactly when the cell is live and unpoisoned after a first-use initialisation |
| Backend.Process.GuardedCall | src/functions.rs:15-21 | an RPC error under the guard poisons the cell as the call model says |
| Backend.Process.DropTrigger | src/functions.rs:59-92 | every dropped table, in order, and nothing else is registered once for each of the two events |
| Effects.KeysAreTheDroppedTables | src/functions.rs:61-62 | there is one key for every dropped object of kind table, in order, made of its quoted schema and name, and none for any other object |
| Backend.Process.FireOne | src/functions.rs:73-80 | one callback: the stream, the RPC, its effect on the registry, and a poisoned stream when the RPC fails |
| Backend.Process.FireCallbacks | src/functions.rs:73-89 | the callbacks of the process's own event send their RPCs in order up to the first failure; the registry loses exactly the keys whose removal took effect, and a failure poisons the stream |
| Backend.Process.Commit | src/functions.rs:73-89 | the transaction's changes become permanent only if every callback returned |
| Backend.Process.RunTransaction | src/functions.rs:59-92 | for any list of CREATE and DROP statements: a committing transaction announced every drop exactly once, in order, an aborting one none, a failing RPC prevents the commit; catalog, registry and recorded actions are exactly those of AfterTransaction and TransactionScript |
| Effects.EventsAreTheDrops | src/functions.rs:59-92 | the events of a transaction whose statements all succeed are the objects of kind table among all the rows its DROP statements report, in order, each under its quoted schema and name |
| Effects.TransactionMeans | src/functions.rs:59-92 | a transaction commits if and only if every statement can be executed on the catalog, nothing aborts it and every drop RPC removed its table; then the catalog is what executing the statements one by one makes of it and moonlink has exactly the tables not dropped; otherwise Postgres keeps all while moonlink has lost exactly the registered ones whose removal took effect up to the first failure; every table moonlink knows stays committed |
| Effects.StatementsAreDirect | src/functions.rs:59-92 | a transaction's private changes, applied to the catalog, are what its statements make of the catalog executed directly, and its statements succeed if and only if they do so there |
| Effects.SentUpToFailure | src/functions.rs:73-89 | the number of RPCs sent is one more than the position of the first failing one |
| Backend.Process.ReadSource | src/functions.rs:239-270 | connections, mode settings, column list and the textual comparison of the URIs decide, branch by branch, whether CREATE TABLE is reached, and which read-only probes were made |
| Effects.TargetReadyIff | src/functions.rs:265-269 | no second connection stands in the way if and only if it works, or the source URI was left out, or it reads as the loopback target in normal form |
| Effects.ProbesMade | src/functions.rs:213-269 | the mode is probed once per connection, only through the read-only path: never without the first connection, twice exactly when the source could be read, its URI is not the loopback's and the second connection was made |
| Backend.Process.CreateMooncakeTable | src/functions.rs:239-275 | the catalog gains exactly the new table, under a fresh oid, or stays; success is reported only if the reply arrived |
| Backend.Process.DropMooncakeTable | src/functions.rs:280-289 | the cleanup removes the table only through a loopback backend's drop trigger, and its errors change nothing else |
| Backend.Process.RegisterTable | src/functions.rs:37-52 | the create RPC after the guard is released, and the cleanup when it is rejected, with every combination of effects and errors |
| Backend.Process.CreateTable | src/functions.rs:27-53 | for every outcome of connections, RPC and cleanup: the exact catalog and registry afterwards, success exactly when mirrored, the actions taken, and a stream that a rejection does not poison |
| Effects.FateIff | src/functions.rs:27-53 | in terms of the answers of the outside world alone: when a call creates its table, when the table ends up mirrored, and when it is removed again |
| Effects.DropUndoesCreateIff | src/functions.rs:27-92 | a mirrored table and its committed DROP TABLE, end to end: the catalog is as before, and moonlink's registry if and only if both names fit in 63 bytes; otherwise the key stays registered |
| Effects.StoredKeyIsWhatSqlReads | src/functions.rs:271-288 | the name under which CREATE TABLE and DROP TABLE find the table is the pair that SQL reads from the key |
| Effects.AfterCreateIsClean | src/functions.rs:27-53 | an undisturbed call touches no table that was there, and one that is rejected and cleaned up restores catalog and registry |
| Effects.NameIsSafeIff | src/functions.rs:28-44 | when all sessions quote alike, every undisturbed call for a name, whatever its outcome, keeps every table moonlink knows committed if and only if the name fits in 63 bytes or its cut form is taken |
| Effects.CallKeepsNamesFit | src/functions.rs:271 | a call adds none but names that fit to the catalog, as NameIsSafeIff assumes |
| Effects.TransactionKeepsNamesFit | src/functions.rs:59-92 | nor does a transaction of CREATE and DROP statements |
| Effects.SixtyFourLettersGoAstray | src/functions.rs:28-44 | a successful call for a name of 64 letters registers a key under which Postgres has no table |
| Lifecycle.StepKeepsInv | src/functions.rs:27-92 | each of the twenty kinds of step, by whichever backend, keeps the inductive invariant |
| Lifecycle.RegistryIsCommitted | src/functions.rs:27-92 | in every interleaved run, with any failures, in which nobody else drops a table between its CREATE TABLE and its registration, every table in moonlink's registry is committed in Postgres, and is the very table that was registered |
| Lifecycle.ConsiderateRunIff | src/functions.rs:27-92 | a run keeps the assumption if and only if each step does in the state in which it is taken |
| Lifecycle.AnyCatalogIsInitial | src/functions.rs:27-92 | the runs spoken of begin with any committed tables whatever |
| Lifecycle.LockedIff | src/functions.rs:27-92 | a table name is refused to a transaction if and only if granting it would let two open transactions touch one name |
| Lifecycle.AcceptedMeansMirrored | src/functions.rs:32-45 | in every run in which no session drops a table before its call has returned, a call about to return has the very table it created committed and registered |
| Lifecycle.CleanupRemovesOwnTable | src/functions.rs:45-51 | in the same runs, a cleanup's commit removes exactly the table its call created and nothing else |
| Lifecycle.CallSparesOlderTables | src/functions.rs:27-53 | in every run of creates, drops and calls (renames are not part of the machine), a step that removes or replaces a table that existed before a call is the commit of some other call or transaction |
| Interference.InconsiderateStepBreaksIt | src/functions.rs:32-51 | from any state satisfying the invariant, every possible step that violates the assumption of RegistryIsCommitted can be continued to a state where moonlink knows a table Postgres does not have |
| Interference.InconsiderateDropHurtsTheCall | src/functions.rs:32-51 | every possible drop that violates the assumption of AcceptedMeansMirrored and CleanupRemovesOwnTable can be continued until the call returns without its table or its cleanup removes a foreign one |
| Interference.UndisturbedCallsKeepTheirTables | src/functions.rs:32-51 | in runs that keep the assumption neither of the two ever happens |
| Interference.CleanupTakesAnothersTable | src/functions.rs:280-289 | from every initial state and for every free name, a run in which the cleanup of a rejected call is about to remove the table another call has just created |
| Interference.CleanupBreaksTheRegistry | src/functions.rs:280-289 | and a run that goes on from there until moonlink knows a table Postgres does not have |
| Runs.Finishes | src/functions.rs:59-92 | any open transaction can commit: its recorded removals leave the registry, then its view becomes the catalog |
| Runs.AbortedCreateRuns | src/functions.rs:271-274 | a CREATE TABLE that is refused leaves catalog and registry as they were |
| TransactionRuns.TransactionIsARun | src/functions.rs:59-92 | for any statements and any pattern of replies, the actions RunTransaction records are a run of the state machine ending in exactly what its contract gives |
| TransactionRuns.EndingRuns | src/functions.rs:73-89 | from COMMIT on, of a session or of a cleanup: callbacks up to the first failure, then the outcome, as a run |
| CallRuns.CreateTableIsARun | src/functions.rs:27-53 | for every outcome of a call whose name is stored as given, the actions CreateTable records are a run of the state machine ending in exactly the catalog and registry of its contract |
| CallRuns.CleanupRuns | src/functions.rs:280-289 | each outcome of the cleanup is a run of the machine with the catalog and registry of the code |
| WaitGraph.CanDeadlockIff | src/functions.rs:213-229 | for a call whose RPC is still to be answered and whose CREATE TABLE nothing stands against, over everything that can happen from now on and whatever locks are asked for: its caller can end up in a wait cycle if and only if it has a transaction id or holds a lock |
| WaitGraph.CarefulCallDeadlocksIff | src/functions.rs:27-52 | in every run of calls entered without transaction id and locks that probe the mode read-only: no caller is ever in a wait cycle; its create RPC is in one if and only if some drop RPC is queued behind it; its loopback transaction, if it asks for no further lock while open, if and only if its own drop RPC is queued behind some create RPC |
| WaitGraph.CarefulRunsHideCyclesIff | src/functions.rs:27-89 | in the same runs a wait cycle through anything but transactions exists if and only if a drop RPC is queued behind a create RPC; without one every cycle consists of transactions waiting for each other's locks, which Postgres detects |
| WaitGraph.FreshCallDeadlocksIff | src/functions.rs:213-237 | the same for one call in any single state |
| WaitGraph.CallerDeadlocksIff | src/functions.rs:213-229 | in a single state in which no caller holds locks: a caller in a wait cycle has a transaction id; while its create RPC is pending that is also enough; with no drop RPC queued behind a create RPC it is in none at any other time |
| WaitGraph.MutableProbeDeadlocks | src/functions.rs:214-220 | a mode probe that assigned a transaction id would put every call that reaches its RPC in a cycle, whatever other calls do meanwhile |
| WaitGraph.LockHoldingCallerDeadlocks | src/functions.rs:37-44 | a caller without transaction id but with a lock that a writer asks for is in a cycle while its RPC is pending |
| WaitGraph.OwnLoopbackDeadlocks | src/functions.rs:271-289 | a caller that holds a lock its own loopback connection asks for is in a wait cycle with it |
| WaitGraph.CrossedLocksDeadlock | src/functions.rs:213-220 | two transactions that each ask for a name the other has touched are in a cycle |
| WaitGraph.RpcOutlivesItsLoopback | src/functions.rs:32-44 | the create RPC waits for exactly the transactions that have written, and its own call's loopback transaction, which has ended, is never one of them |
| SlotCleanup.SlotPatternMeans | src/functions.rs:402 | the LIKE pattern matches exactly the names of at least 14 characters with `moonlink` first and `slot` at position nine |
| SlotCleanup.PatternIsNotAPrefix | src/functions.rs:432 | a name without the documented prefix that the pattern takes in |
| SlotCleanup.ListingInOrder | src/functions.rs:388-404 | the rows give name and database of every slot whose name has the pattern's shape, each once, in name order |
| SlotCleanup.NameLeIff | src/functions.rs:403 | in name order a name comes first if it is the front of the other or has the smaller character where they first differ |
| SlotCleanup.ListingFlags | src/functions.rs:391-398 | a count and a flag only for slots of the current database, the flag only without mooncake tables; NULL databases get neither |
| SlotCleanup.FlaggedIsActedOn | src/functions.rs:381-505 | the names flagged by the listing are exactly the names the cleanup acts on |
| SlotCleanup.OrphansAre | src/functions.rs:467-505 | acted on are exactly the slots of the current database whose name has at least 14 characters, `moonlink` first and `slot` at position nine: by drop_orphan_slots only without mooncake tables, by the watcher always |
| SlotCleanup.ExactlyTheOrphansGo | src/functions.rs:467-530 | for both cleanups, in terms of name, database, holder and failures: which slots stay, all in their places, and whether the publication goes; drop_orphan_slots touches nothing while mooncake tables remain |
| SlotCleanup.RunRemovesDrops | src/functions.rs:513-530 | removing slot by slot equals removing the set of successful drops at once |
| SlotCleanup.RequestsInOrder | src/functions.rs:513-530 | orphan by orphan: a request to terminate the holder, if there is one, right before the request to drop, which PL/pgSQL leaves out when terminating raises; no other requests |
| SlotCleanup.DistinctIff | src/functions.rs:465-552 | what the cleanups assume of the server: no two slots have the same name |
| SlotCleanup.Server.DropOrphanSlots | src/functions.rs:465-552 | one row per orphan in order even after failures, the last or a synthetic one alone reporting the publication; requests in order, terminate before drop; exactly one publication attempt without mooncake tables and none otherwise |
| SlotCleanup.Server.DropEach | src/functions.rs:510-542 | the loop: slots, requests, rows, publication and attempts after it |
| SlotCleanup.Server.AttemptDropPublication | src/functions.rs:558-584 | true exactly when the publication was there and is gone |
| SlotCleanup.Server.DropCleanup | src/sql/bootstrap.sql:12-67 | nothing changes unless an extension named pg_mooncake is among the dropped objects; otherwise slots, publication, requests, one nested firing at most, and the trigger and function removed together or not at all |
| SlotCleanup.Server.DropLeftovers | src/sql/bootstrap.sql:33-48 | an error on one slot does not stop the others; exactly the removable slots go |
| SlotCleanup.Server.SelfRemove | src/sql/bootstrap.sql:59-65 | trigger and function go together or both stay |
| SlotCleanup.CleanupsAgreeIff | src/sql/bootstrap.sql:33-56 | Rust and PL/pgSQL leave the same slots and publications if and only if no active slot that could be dropped fails to be terminated and no publication that could be dropped fails to be looked up |
| SlotCleanup.RerunActsOnSurvivors | src/functions.rs:485-505 | after a run the remaining orphans are, in order, those whose drop failed |
| SlotCleanup.CleanRunLeavesNoOrphan | src/functions.rs:381-552 | after an error-free run the listing flags nothing, and a second run, with whatever faults, changes nothing and returns no rows |

## Left out

- Keyword list, `\w` outside ASCII, format_type: parameters of the model; types enter as any text that is balanced, has no comma at top level and does not end in NOT NULL.
- Newlines and indentation of the column query, and string constants continued across a newline (section 4.1.2.1): the modelled query is the same text on one line.
- NUL characters in strings: Postgres and the C interface exclude them.
- Choice of the host from unix_socket_directories (first entry, trimmed): the URI model starts from the chosen host.
- DATABASE, the tokio runtime, TLS and sockets: outcomes of calls, given by the environment of each call. A panic while DATABASE initialises under the guard is not modelled.
- Lifecycle.RegistryIsCommitted: top-level commit and abort only, names of at most 63 bytes, all sessions quoting alike; no ROLLBACK TO SAVEPOINT, rename or DROP EXTENSION; no PREPARE TRANSACTION, for which the PreCommit callbacks do not fire, and no session in which event triggers are off; and an RPC that reported an error takes effect before the report or never.
- Lifecycle.CallSparesOlderTables: a rename of an older table onto the call's name would break it; the machine has no renames.
- Effects.NameIsSafeIff: all sessions quote alike; DropKeyIsCreateKey has the condition for two sessions that do not.
- CallRuns.CreateTableIsARun: the machine has one name for a table, so a name over 63 bytes, whose key differs from its stored name, is covered by Backend.Process.CreateTable only.
- ParseTable.InputDenotesItselfIff: compares names; a lookup of an unqualified name would search the whole search path, where parse_table takes current_schema().
- WaitGraph.CallerDeadlocksIff: one state, and only when no caller holds locks; CanDeadlockIff is the general statement.
- WaitGraph.CarefulCallDeadlocksIff: a loopback transaction that asks for a further lock while it is open may wait like any other transaction; nothing is claimed about it then. How moonlink orders its RPCs is a parameter.
- SlotCleanup.Server.DropOrphanSlots: an ERROR that unwinds out of SPI in the middle of the loop is not modelled, only failures returned to the loop; terminating a holder does not change the holder column of the remaining slots.
- SlotCleanup.Server.DropCleanup: other sql_drop triggers of the database do not take part in the nested firing.
- propagate_compatible_mode: its SPI path and its failure are modelled; the effect of the Oracle mode on type names is not.
- list_tables, load_files, optimize_table and create_snapshot: only as calls that may fail under the stream guard.
- src/table.rs, src/bgworker.rs, src/guc.rs, src/lib.rs, src/duckdb_mooncake.rs: registration, constants and foreign-pointer glue without behaviour to prove.
- Moonlink, DuckDB and Iceberg: the registry and the outcomes of RPCs stand for them.
