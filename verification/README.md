# Verified model of the metrics server and its agent

An agent collects gauges and counters and reports them; a server checks their signatures, adds counters up,
and keeps everything in memory, in a JSON file, or in a PostgreSQL table. This project models the parts of
the two programs where state, bytes and failures meet, and proves in Dafny what they keep:

- **The store** (`MemStore.dfy`): a slice searched by (type, id), as a class over its backing array, with
  Go's `append` in place or into a larger array. It refines an insertion-ordered map.
- **The manager** (`Server.dfy`, `Manager.dfy`): signature check, int64 accumulation, batches, flushing.
  `Server` says what one call does to memory and disk as functions on values, `Manager` does it in place
  and is proved equal to it. `Runs.dfy` has the laws of whole runs.
- **The database** (`DbStore.dfy`, `DbTable.dfy`, `Agreement.dfy`, `BatchAgreement.dfy`, `RefusedIds.dfy`,
  `LifeLedger.dfy`): one transaction per flush into a table keyed by name only, restored in any row order; when
  memory and table agree, and what is owed to an id, over whole lives with crashes.
- **The file** (`Text.dfy`, `Unicode.dfy`, `Json.dfy`, `JsonFacts.dfy`, `JsonNumbers.dfy`, `JsonGrammar.dfy`,
  `JsonReader.dfy`, `Codec.dfy`, `Decoding.dfy`, `FileStore.dfy`, `Lives.dfy`): the bytes of the JSON, a JSON reader
  proved equal to the grammar of RFC 8259, the decoding of a batch, the line scanner, and crashes at any byte of a
  write.
- **The wire** (`Transport.dfy`, `Report.dfy`, `Handlers.dfy`): block encryption with two strides, the URL
  form and the batch form of a report, and the handlers that take them in.
- **The protocol** (`Agent.dfy`, `PollCount.dfy`): many agents that scan, report and delete, against one
  server, with reports lost, delivered late, or never acknowledged.

`Basics.dfy`, `Decimal.dfy` and `Metrics.dfy` hold shared values, int64 text, and the Metric record.

## Reading the model

- A Go string or byte slice is a Dafny `string` with one `char` per byte. `int64` is the subset type
  `Int64`, and sums go through `Wrap64`. A `float64` is its 64-bit pattern; it is copied, printed and parsed,
  never computed with. A NaN is taken up to its payload bits, which the database does not keep.
- Libraries are parameters with stated laws: HMAC is any function of key and text; float text is a record
  `FloatText` with the laws `JsonFloats`, `PathFloats` and `ColonFree`; RSA-OAEP is a record `Rsa` with the
  length rules of section 7.1.1 of RFC 8017 (`MatchingKeys`). Section 7.1.2 refuses a block that is not of k
  bytes, but Go's library does so only for longer ones: it reads a shorter block as a number with leading zeros
  (`ReadsAsNumber`). No law says that a shorter block fails. `Laws.dfy` shows that the laws of float text and of
  the cipher can be met.
- Failures are parameters too: which SQL statement fails, whether a failed COMMIT was applied, how many bytes of
  a file write or read arrived, whether the query for the rows fails, which rows arrive in which order before
  its cursor breaks.
- Every call on the manager is atomic. The code takes no lock, so this is an assumption about its use. The
  top-level README.md says that the agent guards its store with an RWMutex; no such mutex exists, and the
  model follows the code.
- `Panicked` is a nil dereference. Over HTTP the process survives it, because net/http recovers panics per
  request. Over gRPC nothing recovers it, and the process dies: in the model, a restart.
- A life is a sequence of calls and restarts. A restart may find the current image, one from the middle of a flush
  of live memory, or a table whose row a Delete took just before it would have flushed (`CrashDisk`). A crash in
  the middle of any other call is that call with a flush that fails there, and then a restart.
- A restart may see all rows of its table, some, or none, because both restores only log their errors.
- An encryption key must be longer than 66 bytes. At 66 bytes the agent's loop does not advance; with a shorter
  key its slice bounds are negative and it panics.

## Where the code does not do what one might expect

Each of these has its exact condition or a concrete input in the table below.

- A counter and a gauge with one id share a table row, so one of them is lost (`UpsertAgreesIff`,
  `ClashLosesTheCounter`). Empty ids are not restored either.
- An id the column refuses, such as one of more than 50 characters or with a zero byte, is accepted with nil.
  From then on every flush fails, of all metrics, until just this key is deleted (`RefusedIdFreezesTable`,
  `DeleteThawsIff`, `ZeroByteFreezesTable`).
- A batch ends in agreement exactly when it settles (`BatchAgreesIff`). To fit item by item (`BatchFits`) is exact
  when all its metrics are usable (`BatchFitsIff`). Otherwise it asks for more than is needed: without a sign key
  a gauge sent without its Value and later in the batch with it does no harm (`LaterGaugeMends`).
- A restore that fails is only logged. The next delta of a counter whose row was not delivered overwrites its
  total (`TotalSurvivesRestoreIff`, `FailedRestoreLosesTotal`). On a file the next write replaces everything
  (`FileSurvivesLoadIff`).
- A file whose line reaches 65536 bytes is reported as restored and is not (`LargeStoreIsLost`); one long id is
  enough (`LongIdLosesTheFile`).
- A flush empties the file exactly when some value is NaN or infinite, while the write still returns nil
  (`FlushEmptiesIff`, `NaNEmptiesTheFile`).
- A counter without a Delta that meets another value of its id panics (`BatchPanicsIff`,
  `UnsignedNilCounterPanics`); with a sign key it cannot be sent (`SignKeyAdmitsAll`).
- A failed SQL delete returns an error, yet memory has lost the metric until the next restart
  (`FailedDeleteComesBack`, `DeleteComesBackIff`).
- Metrics reported by URL are refused exactly when there is a sign key (`UrlUpdatesFailIffSignKey`), and the id
  `update` cannot be reported by URL at all (`UrlRoundTripIff`).
- Not every scan is counted: two scans between two reports count once (`ScansCanBeMerged`), and so on for each
  way to drop one. All are counted exactly when no move dropped one and none is still under way
  (`AllScansCountedIff`).
- Decrypt ignores read errors, and a tail behind the whole blocks is decrypted as if it were a block. A body cut
  after any number of bytes is not taken for a batch unless its tail decrypts (`CutBodyIsTakenIff`,
  `OnlyWholeBodies`). A tail can decrypt: a valid block whose first byte is zero does without that byte
  (`LeadingZeroBodyIsTaken`).

## Model

| member | source | states |
|---|---|---|
| `Decimal.ParseOfFormat` | pkg/metric/metric.go:72-77 | every int64, both range ends included, survives being printed in decimal and parsed |
| `Decimal.ParseMeans` | pkg/metric/metric.go:72-77 | on all texts: an optional sign and digits denote the value of the digits, negated behind a minus, within int64; nothing else parses |
| `Decimal.DigitsAreText` | pkg/metric/metric.go:72-77 | a row of digits is the decimal text of its value behind leading zeros |
| `Metrics.CreateMetric` | pkg/metric/metric.go:33-55 | the option loop equals the recursive meaning: options in order, the first failure wins |
| `Metrics.CreateFromText` | pkg/metric/metric.go:57-85 | with a text for a value, creation succeeds iff the id is not empty and the text is a number of the type; the error of every refusal |
| `Metrics.CreateFromInt` | pkg/metric/metric.go:110-127 | a number becomes the delta of a counter and, converted, the value of a gauge; any other type is an error |
| `Metrics.OptionsInOrder` | pkg/metric/metric.go:48-52 | the last option runs on what the options before it made, unless one of those failed |
| `Metrics.CreatedShape` | pkg/metric/metric.go:33-85 | a created metric has the key asked for, no hash, and a value of its type as soon as one option ran |
| `Metrics.CreateCounter` | pkg/metric/metric.go:110-127 | WithValueInt on a counter gives exactly that delta and nothing else |
| `Metrics.SignableIffWellTyped` | pkg/metric/metric.go:132-160 | with a key, signing works exactly for gauges with a Value and counters with a Delta |
| `Metrics.SignMeans` | pkg/metric/metric.go:132-170 | a signature is the HMAC of the source; without a value of its type a metric has none, and which error says so |
| `Metrics.SignSourceReads` | pkg/metric/metric.go:129-160 | the signed text is the id, a colon, the type, a colon, and the printed value |
| `Metrics.SignSourceIdentifies` | pkg/metric/metric.go:140-159 | two metrics share a signing source iff id, type and printed value agree, colons in ids included; counters sign injectively and never share with a gauge |
| `MemStore.Storage.Find` | internal/storage/memstore/memory.go:22-31 | the search returns the first index with the key, or -1 when there is none |
| `MemStore.Storage.Append` | internal/storage/memstore/memory.go:37 | append adds one element whether or not the array has to grow, and an earlier slice keeps what it saw |
| `MemStore.Storage.Upsert` | internal/storage/memstore/memory.go:34-51 | in-place update or append equals the sequence meaning; a slice handed out earlier sees the update but no new entry |
| `MemStore.Storage.UpsertBatch` | internal/storage/memstore/memory.go:54-63 | a batch equals upserting its metrics one after another |
| `MemStore.Storage.Get` | internal/storage/memstore/memory.go:66-74 | returns the stored metric of the key, or not found |
| `MemStore.Storage.GetBatch` | internal/storage/memstore/memory.go:77-80 | hands out the store's own array and length |
| `MemStore.Storage.Delete` | internal/storage/memstore/memory.go:83-92 | removes the one entry in the same array; an earlier slice sees the rest shifted and its last element doubled |
| `MemStore.UpsertRefinesMap` | internal/storage/memstore/memory.go:34-51 | keys stay unique and keep their positions, a new key comes last, and only the upserted key reads differently |
| `MemStore.UpsertedAllReads` | internal/storage/memstore/memory.go:54-63 | after a batch every key reads the last metric sent for it, and keys not sent are untouched |
| `MemStore.UpsertTouchesSelectedField` | internal/storage/memstore/memory.go:40-47 | in a known entry only the hash and the field selected by the type change |
| `MemStore.DeleteRefinesMap` | internal/storage/memstore/memory.go:83-92 | exactly the deleted key disappears and the order of all others is kept |
| `MemStore.OnlyMatch` | internal/storage/memstore/memory.go:22-31 | with unique keys Find can only return the position the key was stored at |
| `DbStore.StoredNameFits` | internal/storage/dbstore/postgres.go:260-265 | a VARCHAR(50) keeps a name unchanged iff it is valid UTF-8 of at most 50 characters without a zero byte, and whatever it stores is such a name |
| `DbStore.StoredNameCuts` | internal/storage/dbstore/postgres.go:260-265 | a longer name is stored without its excess iff that is spaces only, and refused otherwise |
| `DbStore.WidthIsRunes` | internal/storage/dbstore/postgres.go:260-265 | the width of a name is its number of characters, not of bytes |
| `DbStore.Storage.Flush` | internal/storage/dbstore/postgres.go:101-178 | the transaction loop equals all-or-nothing application of the statements, for every point of failure |
| `DbStore.Storage.Restore` | internal/storage/dbstore/postgres.go:180-235 | the row loop equals folding the delivered rows into memory; it reports success iff the query worked and the cursor did not break |
| `DbStore.Storage.Delete` | internal/storage/dbstore/postgres.go:87-99 | the row goes only when its type matches; when SQL fails or refuses the text, memory has already lost the metric and the table has not |
| `DbStore.FlushRowsFails` | internal/storage/dbstore/postgres.go:165-168 | one failing statement makes the whole flush fail, whatever follows it |
| `DbTable.FlushedRow` | internal/storage/dbstore/postgres.go:16-26 | a row has the type of its last writer, each column the value of the last writer of that column's type, and unwritten rows are unchanged |
| `DbTable.FailedFlushChangesNothing` | internal/storage/dbstore/postgres.go:103-175 | a flush that does not commit leaves every row as it was, unless COMMIT itself was applied and reported failed |
| `DbTable.FlushSucceedsIff` | internal/storage/dbstore/postgres.go:140-168 | the statements all succeed iff every flushable id is text the database takes and fits the column or only overflows it with spaces |
| `DbTable.FlushCommitsIff` | internal/storage/dbstore/postgres.go:101-178 | a flush reports success iff its SQL does not fail and no metric with a value has an id the column refuses; metrics without a value are skipped and fail nothing |
| `DbTable.FlushTwice` | internal/storage/dbstore/postgres.go:101-178 | flushing twice equals flushing once, stale columns of a type change included |
| `DbTable.FlushKeepsTable` | internal/storage/dbstore/postgres.go:140-163 | from a well-formed table every reachable row has a value in the column its type selects, whatever memory holds and SQL does |
| `DbTable.DeletedRowReads` | internal/storage/dbstore/postgres.go:93-96 | deleting a key takes exactly that key out of the table, a row of the other type under the same name stays |
| `DbTable.RestoreIsOrderFree` | internal/storage/dbstore/postgres.go:28-30 | every row order restores an empty store to the same map, read off the table directly |
| `DbTable.RestoredMetric` | internal/storage/dbstore/postgres.go:204-221 | the restored metric of every key, field by field: its type's column and never the stale one, no hash, nothing for a row without name or type |
| `DbTable.RestoreTwice` | internal/storage/dbstore/postgres.go:60-62 | the second restore of startup, in any other order, changes nothing, not even positions |
| `DbTable.CommittedFlushAgreesIff` | internal/storage/dbstore/postgres.go:101-235 | after a commit, table and memory agree in every row order iff ids are non-empty, acceptable text and short enough, values are present, no id has two types, and no forgotten row was there |
| `Text.SanitizeIsIdentityIff` | internal/storage/filestorage/file.go:60 | replacing invalid bytes changes a string iff it is not valid UTF-8 |
| `Text.UnquoteEscaped` | internal/storage/filestorage/file.go:60-91 | for all byte strings, reading the escaped form gives the string with every invalid byte replaced |
| `Unicode.WellFormedIsEncoded` | internal/storage/filestorage/file.go:91 | a byte sequence is taken for a character only if it is the UTF-8 of a code point that is no surrogate |
| `Unicode.EncodedIsWellFormed` | internal/storage/filestorage/file.go:91 | every such code point is encoded as a sequence that is taken and stands for it |
| `Unicode.UnitDecodes` | internal/storage/filestorage/file.go:91 | the four digits of an escape, in either case, are decoded to the UTF-8 of their code point |
| `Unicode.PairDecodes` | internal/storage/filestorage/file.go:91 | a surrogate pair is decoded to the UTF-8 of the one code point it stands for |
| `Unicode.LoneSurrogateDecodes` | internal/storage/filestorage/file.go:91 | a surrogate without its partner becomes U+FFFD, and what follows is read on its own |
| `Unicode.OtherEscapesAreRefused` | internal/storage/filestorage/file.go:91-93 | a backslash before any character but the nine of the grammar is an error |
| `Text.UnquoteExtends` | internal/storage/filestorage/file.go:91 | a JSON string that ended is read the same whatever text follows, surrogate pairs and cut UTF-8 included |
| `JsonFacts.ReadValueExtends` | internal/storage/filestorage/file.go:91 | a JSON value that ended is read the same whatever text follows |
| `JsonFacts.PrefixIsNoDocument` | internal/storage/filestorage/file.go:91-93 | no strict prefix of an array text is a JSON document, for every array text, not only printed ones |
| `JsonFacts.ReadPrinted` | internal/storage/filestorage/file.go:60-91 | for every JSON value with well-formed numbers, reading inverts printing up to string validity |
| `JsonGrammar.GrammarIsRead` | internal/storage/filestorage/file.go:91 | every text of the JSON grammar, with any white space at every place that allows it, is read as what it means |
| `JsonReader.OnlyGrammarIsRead` | internal/storage/filestorage/file.go:91-93 | whatever is read as a document is a text of the grammar, and is read as what it means |
| `JsonNumbers.GrammarIsNumber` | internal/storage/filestorage/file.go:91 | every text of the number grammar is taken for a number |
| `JsonNumbers.NumberHasParts` | internal/storage/filestorage/file.go:91 | every text taken for a number is one of the number grammar |
| `Codec.DecodeEncoded` | pkg/metric/metric.go:22-29 | one metric survives its JSON form, omitted fields included |
| `Decoding.MetricText` | pkg/metric/metric.go:22-29 | the text of a metric: members named and ordered by the tags, none for an absent value or an empty hash |
| `Decoding.MembersMean` | pkg/metric/metric.go:22-29 | an object is taken iff every known member is null or of its field's kind and range, and each field has the last member of its name, in any case of letters |
| `Decoding.UnmarshalMeans` | internal/server/handlers/metrics_write.go:144-149 | a text of the grammar is a batch iff it is an array of acceptable objects and nulls, or null; which batch |
| `Decoding.OnlyGrammarIsTaken` | internal/server/handlers/metrics_write.go:144-149 | no other text is taken for a batch |
| `Decoding.OtherMembersAreIgnored` | pkg/metric/metric.go:22-29 | a member that names no field may stand anywhere and changes nothing |
| `Codec.UnmarshalOfMarshal` | internal/storage/filestorage/file.go:60-91 | every batch of finite metrics survives json.Marshal and json.Unmarshal, strings made valid |
| `Codec.UnmarshalOfPrefix` | internal/storage/filestorage/file.go:91-93 | a marshalled batch cut at any byte decodes to an error, never to a shorter batch |
| `FileStore.Storage.Flush` | internal/storage/filestorage/file.go:41-70 | truncation comes first, so a failing encoder or write never leaves the old content |
| `FileStore.Storage.Restore` | internal/storage/filestorage/file.go:72-101 | the scan loop equals folding the decoded lines into memory up to the first bad line, or to where reading the file broke off |
| `FileStore.FirstLineIsToken` | internal/storage/filestorage/file.go:85-87 | a line within the limit is one token, without its newline and the carriage return before it, whatever follows |
| `FileStore.RestoreLineByLine` | internal/storage/filestorage/file.go:85-98 | a file of several lines is restored line by line, and no further than the first line that is no batch |
| `FileStore.LongLineEndsTheScan` | internal/storage/filestorage/file.go:85-100 | a line of 65536 bytes ends the restore without an error, wherever it stands |
| `FileStore.FlushFaults` | internal/storage/filestorage/file.go:41-70 | only a file that cannot be opened keeps its content; a write that breaks off leaves what had arrived |
| `FileStore.RestoreOfCut` | internal/storage/filestorage/file.go:72-101 | a file holding the first n bytes of a snapshot restores nothing unless it is whole and under 65536 bytes |
| `FileStore.CrashIsAllOrNothing` | internal/storage/filestorage/file.go:41-101 | a crash at any point of a flush leaves the old file, or nothing to restore, or the complete snapshot |
| `FileStore.FileRoundTripIff` | internal/storage/filestorage/file.go:41-101 | flush then restore is the identity, order and hashes included, iff gauges are finite, strings valid UTF-8, and the text under the token limit |
| `FileStore.RestoreIntoLiveStore` | internal/storage/filestorage/file.go:72-101 | restoring the file of the live store into that store changes nothing |
| `FileStore.LargeStoreIsLost` | internal/storage/filestorage/file.go:85-100 | from 65536 bytes on, restore reports success and restores nothing |
| `FileStore.FlushEmptiesIff` | internal/storage/filestorage/file.go:60-63 | a flush without I/O faults fails and leaves an empty file iff some value is NaN or infinite |
| `Manager.MetricsManager.AccumulateCounter` | internal/server/manager.go:87-100 | the accumulated counter, or none exactly where the Go code dereferences nil |
| `Manager.MetricsManager.Upsert` | internal/server/manager.go:120-139 | new memory, new disk and outcome of one call, for every backend and failure |
| `Manager.MetricsManager.AcceptAll` | internal/server/manager.go:141-156 | store and caller's slice after the batch loop, also when it stops part way |
| `Manager.MetricsManager.UpsertBatch` | internal/server/manager.go:141-163 | a batch flushes only when all of it was accepted; the caller's slice carries the running totals |
| `Manager.MetricsManager.Get` | internal/server/manager.go:165-179 | the stored metric, signed afresh |
| `Manager.MetricsManager.GetBatch` | internal/server/manager.go:181-199 | the returned slice is the store's own array, and signing it changes hashes only |
| `Manager.MetricsManager.Delete` | internal/server/manager.go:201-214 | memory and disk after a delete, and its error, for every backend and failure |
| `Manager.MetricsManager.Tick` | internal/server/manager.go:70-85 | the periodic flush writes live memory to disk and touches memory in no way |
| `Manager.Open` | internal/server/manager.go:26-50 | memory after a start, from whatever its one or two restores get to read, on whichever backend |
| `Runs.SignKeyAdmitsAll` | internal/server/manager.go:103-118 | with a sign key only metrics with a value of their type pass |
| `Runs.RunNeverPanics` | internal/server/manager.go:87-163 | from a sound store no run of calls dereferences nil, and the store stays sound under every failure |
| `Runs.RunKeepsKeysUnique` | internal/storage/memstore/memory.go:22-92 | in every state any run of calls can reach, malformed metrics included, no two entries share (type, id) |
| `Runs.UpsertPanicsIff` | internal/server/manager.go:92-98 | an Upsert panics iff it verifies and adds to a known counter and one side has no Delta |
| `Runs.BatchPanicsIff` | internal/server/manager.go:92-149 | a batch panics iff, among stored metrics and its verified prefix, a counter of the prefix meets an earlier value of its id and either has no Delta |
| `Runs.UnsignedNilCounterPanics` | internal/server/manager.go:92-98 | two concrete unsigned calls of which the second panics |
| `Runs.SignatureMeans` | internal/server/manager.go:103-118 | the check passes iff there is no key, or the metric has a value of its type and the HMAC of its source; the error of every refusal |
| `Runs.UpsertEnds` | internal/server/manager.go:120-139 | on a sound server an Upsert is nil and stores the key, or fails by its signature and changes nothing |
| `Runs.NotFoundIff` | internal/server/manager.go:165-214 | Get and Delete answer not found iff no stored metric has the key, and Delete then changes nothing |
| `Runs.HashBindsCounter` | internal/server/manager.go:103-118 | unless the two signed texts collide under HMAC, the hash of an accepted counter is accepted for exactly the metrics of its id, type and delta |
| `Runs.ReadsVerify` | internal/server/manager.go:165-179 | every metric read from a sound server passes the server's own signature check and has the stored value |
| `Runs.Conservation` | internal/server/manager.go:87-163 | after any run a counter is the int64 wrap of its opening value plus all deltas accepted since its last delete, and a gauge its last accepted value |
| `Runs.OrderOfDeltasIsIrrelevant` | internal/server/manager.go:96-97 | permuting a batch leaves every counter with the same value |
| `Runs.BatchCallIsPrefixFold` | internal/server/manager.go:141-163 | a batch equals single Upserts of its longest verified prefix; it flushes once if that is all of it, and otherwise keeps the prefix, does not flush, and returns the first error |
| `Runs.BatchIsFold` | internal/server/manager.go:141-156 | a batch leaves the store that single Upserts of its longest verified prefix leave |
| `Runs.BatchEnds` | internal/server/manager.go:144-146 | a batch returns nil iff all signatures verify, and otherwise the error of the first that does not |
| `Runs.BatchWritesBack` | internal/server/manager.go:148-149 | inside the verified prefix each counter of the caller's slice holds the running total of its id, duplicates included; the rest is untouched |
| `Runs.GetBatchIsInvisible` | internal/server/manager.go:181-199 | no outcome and no Get of any later run changes because GetBatch signed in place, and Get agrees with its list |
| `Lives.StartSound` | internal/server/manager.go:39-43 | a start on any well-formed table, or on a file cut anywhere, gives a store of usable metrics with unique keys, also when its queries or reads fail part way |
| `Lives.LifeNeverPanics` | internal/server/manager.go:87-163 | over whole lives with failing SQL and files, crashes in a flush, and restarts whose restores fail or break off, on any backend, no call panics |
| `Lives.FileRestoresASnapshot` | internal/storage/filestorage/file.go:41-101 | at every moment of a life begun on any file, the file restores nothing, what the first file gives, or one complete store that was live earlier, even when reading it breaks off |
| `Lives.FileWriteThroughIff` | internal/server/manager.go:120-163 | a write that returns nil leaves a file that restores live memory itself iff that store is restorable |
| `Lives.FileTickIff` | internal/server/manager.go:70-85 | with a positive interval a tick leaves a file that restores to live memory iff that is restorable, and succeeds iff every value is finite |
| `Lives.FileRestartIff` | internal/server/manager.go:39-43 | after a clean flush a restart that can read the file with the restore flag has the identical store iff it is restorable, and without the flag an empty one |
| `Lives.FileSurvivesLoadIff` | internal/storage/filestorage/file.go:41-101 | after a start on a file, the first nil write keeps every other metric in it iff the start read the file to its end or there was no other |
| `Lives.LongIdLosesTheFile` | internal/storage/filestorage/file.go:85-100 | any accepted new metric with an id of 65536 bytes returns nil, and the next restart has no metric at all |
| `Lives.NaNEmptiesTheFile` | internal/server/manager.go:120-139 | an accepted Upsert leaves an empty file iff memory then holds a NaN or infinity, and an accepted gauge of that kind brings it about |
| `Lives.OnlyTicksWrite` | internal/server/manager.go:216-223 | with a positive flush interval no run of other calls changes the file before the next tick |
| `Agreement.FlushSettles` | internal/storage/dbstore/postgres.go:101-178 | a flush of storable memory commits and brings agreement about, also after batches that failed part way |
| `Agreement.StepTracked` | internal/server/manager.go:120-214 | with working SQL a write that returns nil (zero interval) or a tick (positive interval) ends in agreement; with a zero interval every other call but a half-done batch keeps it |
| `Agreement.TickSettles` | internal/server/manager.go:70-85 | with a positive interval and working SQL every tick succeeds and ends in agreement of table and memory |
| `Agreement.RestartAgreesIff` | internal/storage/dbstore/postgres.go:180-235 | memory after a start agrees with its table iff every row with a non-empty name was delivered to one of the restores |
| `Agreement.StartTracked` | internal/storage/dbstore/postgres.go:38-65 | a start on any well-formed table that sees all rows ends in agreement, so lives can begin there |
| `Agreement.AgreedValuesSurvive` | internal/storage/dbstore/postgres.go:87-235 | what memory and table agreed on before a crash, in a flush or a delete, every key reads after the restart, except a key whose own delete was under way |
| `Agreement.LifeAgrees` | internal/server/manager.go:70-223 | over whole lives with either kind of flushing and with crashes, after every nil write or tick and every restart that sees all rows, restoring in any row order gives live memory, and a restart in such a state loses no value |
| `LifeLedger.LifeConservation` | internal/server/manager.go:87-163 | over whole lives with crashes and restarts that see all rows, memory holds the int64 wrap of all deltas booked for memory, and the table that of those booked for the table |
| `LifeLedger.RestartsAreInvisible` | internal/storage/dbstore/postgres.go:101-235 | when restarts happen in agreement and take no row of the id, memory holds the sum of all accepted deltas of the life since the last delete, as if there had been no restart |
| `Agreement.UpsertAgreesIff` | internal/storage/dbstore/postgres.go:16-26 | an accepted Upsert ends in agreement iff the metric is storable and its id is not stored under the other type |
| `BatchAgreement.LastWins` | internal/server/manager.go:141-163 | after a whole batch a key has a usable value iff the last metric sent for it had one; other keys are as before |
| `BatchAgreement.BatchAgreesIff` | internal/server/manager.go:141-163 | a batch that returned nil ends in agreement iff for each of its ids the last metric sent is storable and no other type is stored or sent |
| `BatchAgreement.BatchFitsIff` | internal/server/manager.go:141-163 | a batch of usable metrics that returned nil ends in agreement iff each of them fits the store it meets |
| `BatchAgreement.LaterGaugeMends` | internal/storage/dbstore/postgres.go:144-148 | a concrete unsigned batch that does not fit item by item and still ends in agreement |
| `Agreement.ClashLosesTheCounter` | internal/storage/dbstore/postgres.go:260-265 | a counter and a gauge both named x: two concrete calls after which the table has lost the counter |
| `Agreement.FailedDeleteComesBack` | internal/storage/dbstore/postgres.go:87-99 | a delete whose SQL fails returns an error and is undone by the next restart |
| `Agreement.DeleteComesBackIff` | internal/storage/dbstore/postgres.go:87-99 | after a delete and a restart on its table the key is known iff the DELETE failed, whatever the flush after it did |
| `Agreement.TotalSurvivesRestoreIff` | internal/storage/dbstore/postgres.go:60-62 | the first delta written after a start leaves the right total in the row iff a restore delivered that row or it held 0; otherwise the row holds the bare delta |
| `Agreement.FailedRestoreLosesTotal` | internal/server/manager.go:39-43 | a row of 5, a failing query and one Upsert of 1 that returns nil: the row holds 1 |
| `RefusedIds.RefusedIdFreezesTable` | internal/storage/dbstore/postgres.go:140-168 | once an id the column refuses was accepted, no run of calls with usable metrics that does not delete this key changes the table but by the rows its other deletes take out |
| `RefusedIds.OnlyDeletesShrinks` | internal/storage/dbstore/postgres.go:93-96 | the table after the deletes of a run has no row it did not have, and every row it still has is unchanged |
| `RefusedIds.DeleteThawsIff` | internal/storage/dbstore/postgres.go:140-168 | after a delete of a key the statements of a flush succeed iff no other stored metric has a refused id |
| `RefusedIds.ZeroByteFreezesTable` | internal/storage/dbstore/postgres.go:260-265 | the id of one zero byte is such an id |
| `Transport.Encrypt` | internal/agent/services/reporter/reporter.go:100-130 | the block loop equals encrypting the chunks of the body in order, and terminates |
| `Transport.Decrypt` | internal/server/handlers/handler.go:149-181 | the block loop equals decrypting the k-byte chunks in order, and terminates |
| `Transport.ChunksCover` | internal/agent/services/reporter/reporter.go:109-119 | blocks cover the body, their number is the rounded-up quotient, and each has 1 to k - 66 bytes |
| `Transport.ChunksOfFullBlocks` | internal/server/handlers/handler.go:166-172 | cutting at k finds exactly the boundaries the agent produced |
| `Transport.DecryptOfEncrypt` | internal/agent/services/reporter/reporter.go:100-130 | decryption inverts encryption for every body, key over 66 bytes and randomness, and without keys; the ciphertext has one block of k bytes per started chunk |
| `Transport.EncryptSucceeds` | internal/agent/services/reporter/reporter.go:115-124 | the loop itself never causes an encryption error: no block is too long |
| `Transport.EncryptedBlocks` | internal/agent/services/reporter/reporter.go:105-130 | the ciphertext is the blocks of k - 66 bytes in order, each encrypted under randomness of its own |
| `Transport.DecryptOfCut` | internal/server/handlers/handler.go:149-181 | a body cut after n whole blocks decrypts to exactly the first n chunks |
| `Transport.RaggedBodyFailsIff` | internal/server/handlers/handler.go:166-175 | with a key, a body that is no whole number of blocks decrypts to its whole blocks followed by its tail, and is an error iff one of them does not decrypt |
| `Transport.LeadingZeroDecrypts` | internal/server/handlers/handler.go:166-177 | a valid block that starts with a zero byte decrypts without that byte, by Go's reading of short blocks |
| `Transport.CutBodyReads` | internal/server/handlers/handler.go:151-180 | an encrypted body cut after any number of bytes decrypts to the plain blocks before the cut and whatever the tail decrypts to |
| `Transport.CutBodyIsTakenIff` | internal/server/handlers/handler.go:151-180 | a cut batch is taken iff its tail is not empty, decrypts, and completes the blocks before it to a JSON batch; after whole blocks alone it never is |
| `Report.UpdateURL` | internal/server/handlers/metrics_write.go:14-59 | a path that does not parse changes nothing, one that does is one Upsert |
| `Report.PathParts` | internal/server/handlers/metrics_write.go:29-30 | removing the prefix and splitting gives the three segments, unless the middle one is the word update |
| `Report.UrlParsesIff` | internal/server/handlers/metrics_write.go:29-43 | a path of three segments is taken iff the first is a type, the second a non-empty id and the third a number of that type; the error of every refusal |
| `Report.OtherPathsAreRefused` | internal/server/handlers/metrics_write.go:30-37 | a path is answered with 404 iff its rest has not exactly three segments |
| `Report.UnescapeInverts` | internal/agent/services/reporter/reporter.go:217-221 | percent-decoding undoes the escaping of a segment |
| `Report.UpdateOfReport` | internal/agent/services/reporter/reporter.go:203-230 | for every id and value, what UpdateURL makes of the path the agent sends |
| `Report.UrlRoundTripIff` | internal/server/handlers/metrics_write.go:29-43 | the path rebuilds the metric iff the id is non-empty, not update, and needs no escaping |
| `Report.UrlUpdatesFailIffSignKey` | internal/server/handlers/metrics_write.go:39-51 | a metric from a path is refused for its signature iff there is a sign key; without one a sound server takes it |
| `Report.SignBatch` | internal/agent/services/reporter/reporter.go:282-300 | the signed copy equals signing each metric in order, and the agent's own store is not written |
| `Report.SignedBatchVerifies` | internal/agent/services/reporter/reporter.go:288-300 | with a shared key every metric of a signed batch passes the server's check |
| `Handlers.UpdateDataJSON` | internal/server/handlers/metrics_write.go:113-161 | a body that does not decrypt or decode changes nothing, any other is one UpsertBatch |
| `Handlers.BodyArrives` | internal/agent/services/reporter/reporter.go:280-318 | the server decodes exactly the batch the agent signed, through marshalling and both block loops, and from a sound store its UpsertBatch accepts all of it |
| `Handlers.OnlyWholeBodies` | internal/server/handlers/handler.go:149-181 | unless its tail decrypts as a block, a body cut after any number of bytes is taken iff nothing was cut, and without a key only if reading it did not fail |
| `Handlers.LeadingZeroBodyIsTaken` | internal/server/handlers/handler.go:166-177 | a batch whose one block starts with a zero byte is taken in full from a body that lacks this byte |
| `AgentService.Agent.Scan` | internal/agent/services/scanner/scanner.go:26-141 | a scan upserts its runtime gauges with PollCount 1, then its workload gauges, in the store's own array |
| `PollCount.ScanReads` | internal/agent/services/scanner/scanner.go:26-141 | after a scan every collected gauge reads its last collected value, PollCount reads 1, and every other key reads as before |
| `AgentService.Agent.Report` | internal/agent/services/reporter/reporter.go:280-300 | reporting only reads the store |
| `AgentService.Agent.ResetPollCount` | internal/agent/agent.go:162-166 | after a report PollCount alone is removed, and its absence is no error |
| `PollCount.CarriesOneOrNone` | internal/agent/services/scanner/scanner.go:80 | an agent's store carries one scan or none, however often it scanned |
| `PollCount.MoveKeeps` | internal/agent/agent.go:123-179 | each scan, report, delete, delivery or loss keeps credited plus in flight plus pending plus dropped equal to the number of scans |
| `PollCount.MoveReads` | internal/agent/agent.go:123-179 | each move changes only its own agent: a scan as said above, a delete takes PollCount alone out of the store, and a report waits for its delete |
| `PollCount.DeliveryReads` | internal/server/handlers/metrics_write.go:113-161 | a delivered batch is one UpsertBatch call of the server and leaves the network; a lost one only leaves it |
| `PollCount.EveryScanIsAccountedFor` | internal/agent/agent.go:123-179 | in every interleaving of any number of agents, growth of the server's count, scans on their way, waiting and dropped add up to the scans made; the server stores the wrapped count |
| `PollCount.AllScansCountedIff` | internal/agent/agent.go:123-179 | every scan is counted iff no move dropped one and none is on its way or waiting |
| `PollCount.CountedAtMostOnce` | internal/agent/agent.go:123-179 | in every interleaving the server's unbounded PollCount grows by at least 0 and at most the number of scans |
| `PollCount.StoredCountIsBounded` | internal/agent/agent.go:123-179 | short of int64 overflow the stored number never exceeds its start plus the number of scans |
| `PollCount.ScansCanBeMerged` | internal/agent/services/scanner/scanner.go:80 | two scans, one delivered report: the server counts one |
| `Laws.FloatLawsCanHold` | pkg/metric/metric.go:156-185 | the laws assumed of float text are met by a concrete instance |
| `Laws.CipherLawsCanHold` | internal/agent/services/reporter/reporter.go:115-120 | the laws assumed of the cipher are met by a concrete instance |

## Left out

- Locking: the code has none, so interleavings inside one call on the shared slice are not modelled; calls are atomic.
- Manager.MetricsManager.UpsertBatch: the caller's slice is assumed not to be the store's own array; no caller
  passes that one.
- Manager.MetricsManager.AcceptAll: the same assumption on the caller's slice.
- Reading beside a concurrent Flush: Flush walks the shared slice in one atomic step.
- HTTP, gRPC, gzip, chi routing, headers, status codes, trusted addresses, tickers, signals, logging and configuration.
- The gRPC endpoint: it drops the incoming hash and adds only calls of Upsert.
- The JSON and gRPC report types of the agent: one request per metric, the same steps as the batch on single metrics.
- Float formatting and parsing: only the laws named above; a gauge's %f text is not injective and no claim is made.
- NaN payload bits: the table of the model gives a NaN back with the bits it was stored with, the database one NaN.
- WithValueFloat on a counter: Go leaves the conversion of out-of-range floats to the implementation.
- Cryptographic strength: HMAC and OAEP have no security claims here beyond the stated laws.
- Row scanning errors: the four columns always scan into their nullable types, so that branch cannot be met.
- encoding/json's nesting limit of 10000, and the non-ASCII spellings of s and k it accepts in field names; field names fold ASCII letters only.
- dbstore.New after a failed migration, and the Close and Health methods: they touch no metric.
- Runtime metrics other than PollCount: a scan's gauges are arbitrary.
- Other clients in the PollCount protocol: only agents write that counter there, and the server does not restart.
- cmd/staticlint, cmd/crypto and pkg/exitchecker: tools outside the running programs.
