# File integrity watcher: event coalescing and audit log

A Dafny model of the core of a file-integrity monitor (`IntegrityWatcher`). Raw
create/change notifications for a path are coalesced in a pending map that
holds the time of each path's last event. A debounce tick settles every path
whose last event lies more than 1000 ms in the past. It removes the path and
then processes it. Processing re-checks that the file exists and hashes it with
SHA-256. It makes up to five attempts in all, and it makes another attempt only
after an `IOException`. It appends a `"Changed"` record to the audit log. Deletions and renames are logged at once. Every append
rewrites the log file with the whole in-memory log.

The model has seven modules:

- `Wrappers` (`wrappers.dfy`): `Option`, the nullable values of the source.
- `Records` (`records.dfy`): the `FileChangeEvent` record and its defaults.
- `Hex` (`hex.dfy`): the hash string. It chains `BitConverter.ToString`, the removal of `-` and lower-casing. It is proved equal to a reference rendering of two lower-case digits per byte, and it has an inverse.
- `Digest` (`digest.dfy`): `ComputeSha256` and the bounded retry loop `ComputeSha256WithRetry`.
- `Processing` (`processing.dfy`): what processing a path, a rename and a debounce tick do, written as functions of the starting state and of the observed world. Lemmas state what the code promises about them.
- `TickLog` (`ticklog.dfy`): what a tick writes to the audit log for each path it takes, and what a burst of raw events for one path followed by a tick leads to.
- `Watcher` (`watcher.dfy`): the class `IntegrityWatcher`.
  - Its fields are the pending map (`pending`), the audit log (`events`) and the content of the log file (`persisted`).
  - Its handler methods update those fields in place.
  - `ProcessFileChange`, `OnRenamed` and `OnDebounceTimerElapsed` are proved to follow `Process`, `RenameRecords` and `Tick` of `Processing`. The other handlers state their new state directly.

Parameters stand in for the outside world:

- Time is an integer number of milliseconds.
- SHA-256 is a function parameter from content to 32 bytes (`Digest.Sha256`).
- The filesystem is an `Env` value that each handler call receives. It has three parts:
  - `fileExists`, the answer of `File.Exists`.
  - `read(path, k)`, the outcome of the k-th attempt to hash `path`: the bytes read, an `IOException`, or another exception.
  - `utcNow(n)`, the clock reading taken when the record that becomes log entry `n` is built.
- An exception that escapes a handler becomes a returned value: `Escaped`, `Raised`, or `escaped`.

Four behaviours of the code that a reader might not expect, all kept by the model:

- A file that is missing when it is hashed is retried like any other `IOException`, because `FileNotFoundException` is one. It does not end the loop at once.
- `OnDeleted` does not remove the path from the pending map. A later tick still takes the path. No stale `"Changed"` record appears only because `ProcessFileChange` checks `File.Exists` first (`Processing.TickAppendsOnlyChanged`).
- Failures during a tick are not isolated per path. An exception other than `IOException` leaves `ProcessFileChange` and ends the tick. The path that raised it has already been removed from the pending map, so it is dropped. The keys after it in the snapshot stay pending for the next tick (`Processing.Tick`, `escaped`). The timer discards the exception.
- At start-up the log file is not read back. Its old content stays until the first append and is then replaced by the new run's log (`Watcher.IntegrityWatcher.constructor`, `Valid`).

## Model

| member | source | states |
|---|---|---|
| `Records.NewFileChangeEvent` | Models/FileChangeEvent.cs:5-8 | A new record has its timestamp taken at construction. `ChangeType` and `FilePath` are `""` and the hash is null. |
| `Records.Initialized` | Services/IntegrityWatcher.cs:111-116 | The object initializer sets change type, path and hash and keeps the constructor's timestamp. |
| `Hex.BitConverterToString` | Services/IntegrityWatcher.cs:134 | `BitConverter.ToString` of n > 0 bytes has 3n - 1 characters. |
| `Hex.BitConverterLayout` | Services/IntegrityWatcher.cs:134 | In `BitConverter.ToString`, byte i is written as two upper-case digits at position 3i, and every pair but the last is followed by `-`. |
| `Hex.HexString` | Services/IntegrityWatcher.cs:134 | The three chained steps, as a definition with no contract of its own. Its properties are `HexStringIsLowerHex`, `HexStringShape`, `HexStringRoundTrip` and `HexStringInjective`. |
| `Hex.HexStringIsLowerHex` | Services/IntegrityWatcher.cs:134 | ToString, then dash removal, then lower-casing equals two lower-case hex digits per byte, high nibble first. |
| `Hex.HexStringShape` | Services/IntegrityWatcher.cs:134 | The hash string has length 2·n, only characters 0-9 and a-f, and no `-`. |
| `Hex.HexStringRoundTrip` | Services/IntegrityWatcher.cs:134 | Parsing the hash string back gives exactly the digest bytes. |
| `Hex.HexStringInjective` | Services/IntegrityWatcher.cs:134 | Different digests give different hash strings. |
| `Digest.ComputeSha256` | Services/IntegrityWatcher.cs:129-135 | The hash of content read is 64 lower-case hex characters with no dash, and it parses back to SHA-256 of that content. |
| `Digest.RetryFrom` | Services/IntegrityWatcher.cs:139-150 | Any hash the retry loop returns is 64 lower-case hex characters. |
| `Digest.RetryNullIff` | Services/IntegrityWatcher.cs:137-151 | The retry loop returns null exactly when every one of the `retries` attempts raised an `IOException`. |
| `Digest.Retry` | Services/IntegrityWatcher.cs:137-151 | `ComputeSha256WithRetry` as a function: the loop from attempt 0. Any hash it returns is 64 lower-case hex characters. `RetryNullIff` and `RetryFirstOutcome` characterise its result. |
| `Digest.RetryFromFirstOutcome` | Services/IntegrityWatcher.cs:139-150 | From attempt i on, the first attempt that does not raise an `IOException` decides. The loop returns a hash exactly when such an attempt k within the budget reads the file, and then the hash is that of what attempt k read. An exception escapes exactly when such an attempt raised another exception. |
| `Digest.RetryFirstOutcome` | Services/IntegrityWatcher.cs:137-151 | A file that one of the first `retries` attempts reads, after only `IOException`s, is hashed from what that attempt read, and the hash parses back to its SHA-256. A hash comes back only in that case. An exception escapes exactly when such an attempt raised another exception. |
| `Digest.ComputeSha256WithRetry` | Services/IntegrityWatcher.cs:137-151 | At most `retries` attempts, all but the last an `IOException`. A hash comes from the first attempt that reads the file. Another exception escapes. Null comes only after `retries` failed attempts. The result equals `Retry`. |
| `Processing.Process` | Services/IntegrityWatcher.cs:92-107 | A missing file gives nothing. When the file exists and the retry loop returns a hash, exactly one `"Changed"` record is logged for the path with that hash, stamped with the clock read for it. Null comes exactly when all 5 attempts raised `IOException`. An exception escapes exactly when the retry loop raises, that is (`Digest.RetryFirstOutcome`) when the first attempt that is not an `IOException` raised another exception. |
| `Processing.RenameRecords` | Services/IntegrityWatcher.cs:62-72 | `"Renamed (from)"` for the old path comes first, with no hash. Then `"Renamed (to)"` for the new path. Its hash is the retry loop's hash of the new path when that exists and hashes, and null when the new path does not exist or the loop returns null. Only `"from"` is left when hashing throws. |
| `Processing.Tick` | Services/IntegrityWatcher.cs:74-90 | One debounce tick over the key snapshot, as a definition with no contract of its own. Its properties are the `Tick*` lemmas below and `TickLog.TickLogsEachHashedPathOnce`, and `OnDebounceTimerElapsed` is proved to follow it. |
| `Processing.TickRemovesOnlySettled` | Services/IntegrityWatcher.cs:79-89 | A tick never adds a pending entry and never changes a kept timestamp. It removes only paths with `now - last > 1000`, so a path with `now - last <= 1000` keeps its entry. |
| `Processing.TickHandsEachRemovedPathOnce` | Services/IntegrityWatcher.cs:79-87 | The paths handed to processing are exactly the removed ones. Each is handed once and each comes from the key snapshot. |
| `Processing.TickLeavesNothingSettled` | Services/IntegrityWatcher.cs:79-89 | After a tick that finishes over a snapshot holding every settled key, every remaining entry has `now - last <= 1000`. |
| `Processing.TickSettlesExactly` | Services/IntegrityWatcher.cs:83-85 | After a tick over all keys without an exception, a path left pending exactly when `now - last > 1000`. |
| `Processing.TickOnlyAppends` | Services/IntegrityWatcher.cs:86 | A tick only appends to the log, at most one record per path it handed on. |
| `Processing.TickAppendsOnlyChanged` | Services/IntegrityWatcher.cs:94-101 | Every record a tick appends is `"Changed"` for a handed path whose file existed. A deleted path that is still pending gets no stale record. |
| `TickLog.TickLogsEachHashedPathOnce` | Services/IntegrityWatcher.cs:79-107 | Every path a tick hands to processing whose file exists and hashes gets exactly one record among those the tick appends. It is `"Changed"` with that hash and is stamped when it became its log entry. |
| `TickLog.Burst` | Services/IntegrityWatcher.cs:52-55 | The pending map after repeated `OnFileEvent` calls for one path, as a definition with no contract of its own. Its properties are `BurstLastWins` and `BurstSettlesOnce`. |
| `TickLog.BurstLastWins` | Services/IntegrityWatcher.cs:54 | Repeated events for a path leave the time of the last one and touch no other entry. |
| `TickLog.BurstSettlesOnce` | Services/IntegrityWatcher.cs:52-107 | A burst of events followed by a completed tick more than 1000 ms after the last event hands the path to processing exactly once and removes it. If the file exists and hashes, the tick logs exactly one record for it, a `"Changed"` record with that hash. |
| `Watcher.KeysToList` | Services/IntegrityWatcher.cs:79 | `Keys.ToList()` lists every pending key exactly once. |
| `Watcher.IntegrityWatcher.constructor` | Services/IntegrityWatcher.cs:22-32 | A new watcher has no pending entries and an empty log, and the log file is left as found. |
| `Watcher.IntegrityWatcher.OnFileEvent` | Services/IntegrityWatcher.cs:52-55 | The path's pending time becomes `now`, inserted or overwritten. Every other entry, the log and the log file are unchanged. |
| `Watcher.IntegrityWatcher.LogEvent` | Services/IntegrityWatcher.cs:109-127 | Exactly one record is appended at the end and earlier records are unchanged. Afterwards the log file holds the entire log in order. The record's timestamp is the one read when it was built. |
| `Watcher.IntegrityWatcher.OnDeleted` | Services/IntegrityWatcher.cs:57-60 | A single `"Deleted"` record with a null hash is appended. The pending map is unchanged. |
| `Watcher.IntegrityWatcher.OnRenamed` | Services/IntegrityWatcher.cs:62-72 | The log grows by exactly `RenameRecords` and the pending map is unchanged. |
| `Watcher.IntegrityWatcher.ProcessFileChange` | Services/IntegrityWatcher.cs:92-107 | The outcome is `Process`. The log grows by its record, if any, and the log file is rewritten only then. |
| `Watcher.IntegrityWatcher.SettleIfQuiet` | Services/IntegrityWatcher.cs:81-87 | A key is taken exactly when it is pending and `now - last > 1000`. It is removed and then processed. Any other key changes nothing. |
| `Watcher.IntegrityWatcher.OnDebounceTimerElapsed` | Services/IntegrityWatcher.cs:74-90 | The snapshot lists every pending key once. The new pending map, log, handed paths and escape equal `Tick` over that snapshot. |

## Left out

- Watching: `Start`, the `FileSystemWatcher` and its filters, directory creation and `Path.GetFullPath` (Services/IntegrityWatcher.cs:22-50) are platform I/O. Events are method calls.
- Concurrency: timer threads and the thread safety of `ConcurrentDictionary` are not modelled. Handlers run one at a time, so no event lands between the key snapshot and the lookups of a tick.
- Timing: the 500 ms timer period and the 200 ms `Thread.Sleep` between attempts are not modelled. The model counts attempts instead.
- Clock: `DateTime` ticks and the floating-point `TotalMilliseconds` are modelled as whole milliseconds.
- Hashing: the SHA-256 algorithm and file reading are oracles, so two hashes of the same content agree by construction.
- `Hex.ToLowerInvariant`: does not model `ToLowerInvariant` beyond ASCII, because only `0-9`, `A-F` and `-` reach it.
- Persistence: JSON serialization and `File.WriteAllText` are modelled as the log file holding the sequence of records. A failed write is not modelled.
- Console output: the Spectre.Console line in `LogEvent` is not modelled. The model assumes this line never throws. If it did throw, it would do so after the append and before the file write. A file name that the library reads as markup might cause that.
- The `"[Error]"` console line of `ProcessFileChange` appears only as the `Unreadable` outcome.
- `Watcher.IntegrityWatcher.OnRenamed`: the empty `catch` also swallows a failure to log the `"to"` record. Since logging never fails in the model, only hashing exceptions are swallowed.
- `PrintAuditLogTable` and `Program.cs` (configuration, console loop, process lifetime) are rendering and glue and are not part of this model.
