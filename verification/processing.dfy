/**
 * What the handlers of Services/IntegrityWatcher.cs do, as functions of the
 * state they start from and of the world they observe: processing one
 * settled path (lines 92-107), handling a rename (lines 62-72) and one
 * debounce tick (lines 74-90). ProcessFileChange, OnRenamed and
 * OnDebounceTimerElapsed of the class in module Watcher are proved to
 * follow these functions; the lemmas here state what the source promises
 * about them.
 */
module Processing {
  import opened Wrappers
  import opened Records
  import opened Hex
  import opened Digest

  /** The change types the handlers write into the log. */
  const Changed: string := "Changed"
  const Deleted: string := "Deleted"
  const RenamedFrom: string := "Renamed (from)"
  const RenamedTo: string := "Renamed (to)"

  /** The quiet period of the debounce tick, in milliseconds (line 77). */
  const DebounceMs: int := 1000

  /**
   * The world one handler call observes:
   * `fileExists(p)` is `File.Exists(p)` when the handler asks about p,
   * `read(p, k)` is the outcome of the k-th attempt to hash p, and
   * `utcNow(n)` is `DateTime.UtcNow` as read by the constructor of the
   * record that becomes entry n of the log.
   */
  datatype Env = Env(fileExists: string -> bool, read: Reader, utcNow: nat -> UtcMillis)

  /** The record `LogEvent` builds when the log holds `n` entries. */
  function LogRecord(env: Env, n: nat, changeType: string, path: string, hash: Option<string>): FileChangeEvent {
    Initialized(env.utcNow(n), changeType, path, hash)
  }

  /** How one `ProcessFileChange(path)` call ends. */
  datatype ProcessOutcome =
    | Logged(record: FileChangeEvent)  // a "Changed" record was appended
    | Vanished                         // File.Exists said no: nothing happens
    | Unreadable                       // the hash came back null: an error line on the console
    | Escaped                          // an exception other than IOException left the method

  /** The records a processing outcome appends to the log. */
  function Emitted(o: ProcessOutcome): seq<FileChangeEvent> {
    if o.Logged? then [o.record] else []
  }

  /** `ProcessFileChange(path)` when the log holds `n` entries. */
  function Process(env: Env, sha256: Sha256, path: string, n: nat): (o: ProcessOutcome)
    ensures !env.fileExists(path) ==> o == Vanished
    ensures o.Logged? ==> && o.record.sha256Hash.Some?
                          && o.record == LogRecord(env, n, Changed, path, o.record.sha256Hash)
                          && |o.record.sha256Hash.value| == 64
                          && IsLowerHex(o.record.sha256Hash.value)
    ensures o.Unreadable? <==> env.fileExists(path)
                               && forall k :: 0 <= k < DefaultRetries ==> env.read(path, k).IOError?
    ensures o.Escaped? <==> env.fileExists(path) && Retry(env.read, sha256, path, DefaultRetries).Raised?
    ensures env.fileExists(path) && Retry(env.read, sha256, path, DefaultRetries).Hash? ==>
              o == Logged(LogRecord(env, n, Changed, path, Some(Retry(env.read, sha256, path, DefaultRetries).hex)))
  {
    RetryNullIff(env.read, sha256, path, DefaultRetries);
    if !env.fileExists(path) then Vanished
    else match Retry(env.read, sha256, path, DefaultRetries)
      case Hash(h) => Logged(LogRecord(env, n, Changed, path, Some(h)))
      case NullHash => Unreadable
      case Raised => Escaped
  }

  /**
   * The records `OnRenamed(oldPath -> newPath)` appends when the log holds
   * `n` entries: "Renamed (from)" first; then "Renamed (to)" with the hash,
   * or with null when the new path does not exist or cannot be read; an
   * exception while hashing is swallowed and leaves the "from" record alone.
   */
  function RenameRecords(env: Env, sha256: Sha256, oldPath: string, newPath: string, n: nat): (r: seq<FileChangeEvent>)
    ensures 1 <= |r| <= 2
    ensures r[0] == LogRecord(env, n, RenamedFrom, oldPath, None)
    ensures |r| == 2 ==> r[1] == LogRecord(env, n + 1, RenamedTo, newPath, r[1].sha256Hash)
    ensures !env.fileExists(newPath) ==> |r| == 2 && r[1].sha256Hash == None
    ensures |r| == 1 <==> env.fileExists(newPath) && Retry(env.read, sha256, newPath, DefaultRetries).Raised?
    ensures |r| == 2 && r[1].sha256Hash.Some? ==> |r[1].sha256Hash.value| == 64
    ensures env.fileExists(newPath) && Retry(env.read, sha256, newPath, DefaultRetries).Hash? ==>
              |r| == 2 && r[1].sha256Hash == Some(Retry(env.read, sha256, newPath, DefaultRetries).hex)
    ensures env.fileExists(newPath) && Retry(env.read, sha256, newPath, DefaultRetries).NullHash? ==>
              |r| == 2 && r[1].sha256Hash == None
  {
    var from := LogRecord(env, n, RenamedFrom, oldPath, None);
    var hash := if env.fileExists(newPath) then Retry(env.read, sha256, newPath, DefaultRetries) else NullHash;
    match hash
    case Raised => [from]
    case Hash(h) => [from, LogRecord(env, n + 1, RenamedTo, newPath, Some(h))]
    case NullHash => [from, LogRecord(env, n + 1, RenamedTo, newPath, None)]
  }

  /** `(now - lastEventTime).TotalMilliseconds > debounceMs` (line 83): strictly older than the quiet period. */
  predicate Settled(last: UtcMillis, now: UtcMillis) {
    now - last > DebounceMs
  }

  /** The state a debounce tick leaves, the paths it handed to processing, and whether an exception escaped. */
  datatype TickResult = TickResult(
    pending: map<string, UtcMillis>,
    events: seq<FileChangeEvent>,
    handed: seq<string>,
    escaped: bool)

  /**
   * `OnDebounceTimerElapsed` over the key snapshot `keys`, at tick time
   * `now`: a path still pending and settled is removed and then processed;
   * an exception from processing ends the tick, leaving the rest of the
   * snapshot for a later tick.
   */
  function Tick(env: Env, sha256: Sha256, now: UtcMillis,
                pending: map<string, UtcMillis>, events: seq<FileChangeEvent>, keys: seq<string>): TickResult
    decreases |keys|
  {
    if keys == [] then TickResult(pending, events, [], false)
    else
      var path := keys[0];
      if path in pending && Settled(pending[path], now) then
        var o := Process(env, sha256, path, |events|);
        if o.Escaped? then TickResult(pending - {path}, events, [path], true)
        else
          var r := Tick(env, sha256, now, pending - {path}, events + Emitted(o), keys[1..]);
          r.(handed := [path] + r.handed)
      else Tick(env, sha256, now, pending, events, keys[1..])
  }

  /**
   * A tick that has handed `handed` to processing so far and still has
   * `keys` to visit, from `pending` and `events`, ends in `total`.
   */
  ghost predicate TickResumes(total: TickResult, env: Env, sha256: Sha256, now: UtcMillis,
      pending: map<string, UtcMillis>, events: seq<FileChangeEvent>, keys: seq<string>, handed: seq<string>)
  {
    var rest := Tick(env, sha256, now, pending, events, keys);
    total == rest.(handed := handed + rest.handed)
  }

  /** Visiting a key that is not taken leaves the rest of the tick as it was. */
  lemma TickResumesPastKept(total: TickResult, env: Env, sha256: Sha256, now: UtcMillis,
      pending: map<string, UtcMillis>, events: seq<FileChangeEvent>, keys: seq<string>, handed: seq<string>)
    requires keys != [] && !(keys[0] in pending && Settled(pending[keys[0]], now))
    requires TickResumes(total, env, sha256, now, pending, events, keys, handed)
    ensures TickResumes(total, env, sha256, now, pending, events, keys[1..], handed)
  {
  }

  /**
   * Visiting a settled key: it is removed and processed; an exception ends
   * the tick there, otherwise the tick goes on with the rest of the keys.
   */
  lemma TickResumesPastTaken(total: TickResult, env: Env, sha256: Sha256, now: UtcMillis,
      pending: map<string, UtcMillis>, events: seq<FileChangeEvent>, keys: seq<string>, handed: seq<string>)
    requires keys != [] && keys[0] in pending && Settled(pending[keys[0]], now)
    requires TickResumes(total, env, sha256, now, pending, events, keys, handed)
    ensures var path, o := keys[0], Process(env, sha256, keys[0], |events|);
      if o.Escaped? then total == TickResult(pending - {path}, events, handed + [path], true)
      else TickResumes(total, env, sha256, now, pending - {path}, events + Emitted(o), keys[1..], handed + [path])
  {
  }

  predicate Distinct<T(==)>(s: seq<T>) {
    forall i, j :: 0 <= i < j < |s| ==> s[i] != s[j]
  }

  /**
   * A tick never adds a pending entry and never changes a kept timestamp;
   * it removes only settled paths, so a path with `now - last <= 1000`
   * keeps its entry.
   */
  lemma {:induction false} TickRemovesOnlySettled(env: Env, sha256: Sha256, now: UtcMillis,
      pending: map<string, UtcMillis>, events: seq<FileChangeEvent>, keys: seq<string>)
    ensures var r := Tick(env, sha256, now, pending, events, keys);
      && (forall p :: p in r.pending ==> p in pending && r.pending[p] == pending[p])
      && (forall p :: p in pending && p !in r.pending ==> Settled(pending[p], now))
    decreases |keys|
  {
    if keys != [] {
      var path := keys[0];
      if path in pending && Settled(pending[path], now) {
        var o := Process(env, sha256, path, |events|);
        if !o.Escaped? {
          TickRemovesOnlySettled(env, sha256, now, pending - {path}, events + Emitted(o), keys[1..]);
        }
      } else {
        TickRemovesOnlySettled(env, sha256, now, pending, events, keys[1..]);
      }
    }
  }

  /**
   * The paths a tick hands to `ProcessFileChange` are exactly the paths it
   * removed from pending, each handed once, each taken from the snapshot.
   */
  lemma {:induction false} TickHandsEachRemovedPathOnce(env: Env, sha256: Sha256, now: UtcMillis,
      pending: map<string, UtcMillis>, events: seq<FileChangeEvent>, keys: seq<string>)
    ensures var r := Tick(env, sha256, now, pending, events, keys);
      && (forall p :: p in r.handed <==> p in pending && p !in r.pending)
      && (forall p :: p in r.handed ==> p in keys)
      && Distinct(r.handed)
    decreases |keys|
  {
    if keys != [] {
      var path := keys[0];
      if path in pending && Settled(pending[path], now) {
        var o := Process(env, sha256, path, |events|);
        if !o.Escaped? {
          var rest := pending - {path};
          TickHandsEachRemovedPathOnce(env, sha256, now, rest, events + Emitted(o), keys[1..]);
          TickRemovesOnlySettled(env, sha256, now, rest, events + Emitted(o), keys[1..]);
        }
      } else {
        TickHandsEachRemovedPathOnce(env, sha256, now, pending, events, keys[1..]);
      }
    }
  }

  /**
   * A tick that ran to the end over a snapshot holding every settled path
   * leaves no settled entry behind: afterwards every pending entry has
   * `now - last <= 1000`.
   */
  lemma {:induction false} TickLeavesNothingSettled(env: Env, sha256: Sha256, now: UtcMillis,
      pending: map<string, UtcMillis>, events: seq<FileChangeEvent>, keys: seq<string>)
    requires forall p :: p in pending && Settled(pending[p], now) ==> p in keys
    requires !Tick(env, sha256, now, pending, events, keys).escaped
    ensures var r := Tick(env, sha256, now, pending, events, keys);
      forall p :: p in r.pending ==> !Settled(r.pending[p], now)
    decreases |keys|
  {
    if keys != [] {
      var path := keys[0];
      if path in pending && Settled(pending[path], now) {
        var o := Process(env, sha256, path, |events|);
        TickLeavesNothingSettled(env, sha256, now, pending - {path}, events + Emitted(o), keys[1..]);
      } else {
        TickLeavesNothingSettled(env, sha256, now, pending, events, keys[1..]);
      }
    }
  }

  /**
   * Together: after a tick over the whole key snapshot with no exception, a
   * path has left pending exactly when its last event was more than 1000 ms
   * before the tick.
   */
  lemma TickSettlesExactly(env: Env, sha256: Sha256, now: UtcMillis,
      pending: map<string, UtcMillis>, events: seq<FileChangeEvent>, keys: seq<string>)
    requires forall p :: p in pending ==> p in keys
    requires !Tick(env, sha256, now, pending, events, keys).escaped
    ensures var r := Tick(env, sha256, now, pending, events, keys);
      forall p :: p in pending ==> (p !in r.pending <==> Settled(pending[p], now))
  {
    TickRemovesOnlySettled(env, sha256, now, pending, events, keys);
    TickLeavesNothingSettled(env, sha256, now, pending, events, keys);
  }

  /** A tick only appends to the log, at most one record per path it handed to processing. */
  lemma {:induction false} TickOnlyAppends(env: Env, sha256: Sha256, now: UtcMillis,
      pending: map<string, UtcMillis>, events: seq<FileChangeEvent>, keys: seq<string>)
    ensures var r := Tick(env, sha256, now, pending, events, keys);
      && |events| <= |r.events| <= |events| + |r.handed|
      && r.events[..|events|] == events
    decreases |keys|
  {
    if keys != [] {
      var path := keys[0];
      if path in pending && Settled(pending[path], now) {
        var o := Process(env, sha256, path, |events|);
        if !o.Escaped? {
          var events' := events + Emitted(o);
          TickOnlyAppends(env, sha256, now, pending - {path}, events', keys[1..]);
          var r := Tick(env, sha256, now, pending - {path}, events', keys[1..]);
          assert r.events[..|events|] == r.events[..|events'|][..|events|];
        }
      } else {
        TickOnlyAppends(env, sha256, now, pending, events, keys[1..]);
      }
    }
  }

  /** Every record of `after` past the first `n` is a "Changed" record for a handed path that existed. */
  predicate OnlyChangedAfter(env: Env, n: nat, after: seq<FileChangeEvent>, handed: seq<string>) {
    forall k :: n <= k < |after| ==>
      && after[k].changeType == Changed
      && after[k].filePath in handed
      && env.fileExists(after[k].filePath)
  }

  /**
   * Everything a tick appends is a "Changed" record for a path it handed to
   * processing and that existed when processed: a path whose file is gone
   * gets no "Changed" record, pending or not.
   */
  lemma {:induction false} TickAppendsOnlyChanged(env: Env, sha256: Sha256, now: UtcMillis,
      pending: map<string, UtcMillis>, events: seq<FileChangeEvent>, keys: seq<string>)
    ensures var r := Tick(env, sha256, now, pending, events, keys);
      OnlyChangedAfter(env, |events|, r.events, r.handed)
    decreases |keys|
  {
    if keys != [] {
      var path := keys[0];
      if path in pending && Settled(pending[path], now) {
        var o := Process(env, sha256, path, |events|);
        if !o.Escaped? {
          var events' := events + Emitted(o);
          TickAppendsOnlyChanged(env, sha256, now, pending - {path}, events', keys[1..]);
          TickOnlyAppends(env, sha256, now, pending - {path}, events', keys[1..]);
          var r := Tick(env, sha256, now, pending - {path}, events', keys[1..]);
          forall k | |events| <= k < |events'|
            ensures r.events[k] == o.record
          {
            assert r.events[k] == r.events[..|events'|][k];
          }
        }
      } else {
        TickAppendsOnlyChanged(env, sha256, now, pending, events, keys[1..]);
      }
    }
  }
}
