/**
 * The `IntegrityWatcher` class of Services/IntegrityWatcher.cs: the pending
 * map that the raw event handler overwrites, the in-memory audit log, and
 * the log file's content, which every append rewrites with the whole log.
 * Handlers are driven one at a time; each receives the world it observes
 * as an `Env` and the tick receives the clock reading it takes on entry.
 */
module Watcher {
  import opened Wrappers
  import opened Records
  import opened Digest
  import opened Processing

  /**
   * `_pendingFiles.Keys.ToList()`: every key once, in an order the
   * dictionary chooses.
   */
  method KeysToList(m: map<string, UtcMillis>) returns (keys: seq<string>)
    ensures Distinct(keys)
    ensures forall p :: p in keys <==> p in m
  {
    keys := [];
    var rest := m.Keys;
    while rest != {}
      invariant rest <= m.Keys
      invariant forall p :: p in keys <==> p in m && p !in rest
      invariant Distinct(keys)
      decreases rest
    {
      var p :| p in rest;
      keys := keys + [p];
      rest := rest - {p};
    }
  }

  class IntegrityWatcher {
    /** The hash algorithm `SHA256.Create()` supplies. */
    const sha256: Sha256
    /** `_pendingFiles`: path to the time of its last raw create/change event. */
    var pending: map<string, UtcMillis>
    /** `_events`: the audit log, in append order. */
    var events: seq<FileChangeEvent>
    /** The records the log file holds, as last written. */
    var persisted: seq<FileChangeEvent>

    /** Once anything has been logged, the log file holds the whole log. */
    ghost predicate Valid()
      reads this
    {
      |events| > 0 ==> persisted == events
    }

    /**
     * A new watcher: nothing pending, an empty log, and the log file left
     * as it was found (it is not read back).
     */
    constructor (sha256: Sha256, onDisk: seq<FileChangeEvent>)
      ensures Valid()
      ensures this.sha256 == sha256
      ensures pending == map[] && events == [] && persisted == onDisk
    {
      this.sha256 := sha256;
      pending := map[];
      events := [];
      persisted := onDisk;
    }

    /** `OnFileEvent` (Created and Changed): the path's pending time becomes `now`. */
    method OnFileEvent(path: string, now: UtcMillis)
      requires Valid()
      modifies this
      ensures Valid()
      ensures pending == old(pending)[path := now]
      ensures events == old(events) && persisted == old(persisted)
    {
      pending := pending[path := now];
    }

    /**
     * `LogEvent`: builds the record (its timestamp read at construction),
     * appends it, and rewrites the log file with the whole log.
     */
    method LogEvent(changeType: string, path: string, hash: Option<string>, utcNow: UtcMillis)
      requires Valid()
      modifies this
      ensures Valid()
      ensures events == old(events) + [Initialized(utcNow, changeType, path, hash)]
      ensures persisted == events
      ensures pending == old(pending)
    {
      var evt := Initialized(utcNow, changeType, path, hash);
      events := events + [evt];
      persisted := events;
    }

    /** `OnDeleted`: one "Deleted" record with no hash; the pending map is left as it was. */
    method OnDeleted(path: string, env: Env)
      requires Valid()
      modifies this
      ensures Valid()
      ensures events == old(events) + [LogRecord(env, |old(events)|, Deleted, path, None)]
      ensures persisted == events
      ensures pending == old(pending)
    {
      LogEvent(Deleted, path, None, env.utcNow(|events|));
    }

    /** `OnRenamed`: the "from" record, then, unless hashing throws, the "to" record. */
    method OnRenamed(oldPath: string, newPath: string, env: Env)
      requires Valid()
      modifies this
      ensures Valid()
      ensures events == old(events) + RenameRecords(env, sha256, oldPath, newPath, |old(events)|)
      ensures persisted == events
      ensures pending == old(pending)
    {
      LogEvent(RenamedFrom, oldPath, None, env.utcNow(|events|));
      var hash := NullHash;
      ghost var attempts;
      if env.fileExists(newPath) {
        hash, attempts := ComputeSha256WithRetry(env.read, sha256, newPath);
      }
      match hash {
        case Raised =>
          // the exception is swallowed by the empty catch
        case Hash(h) =>
          LogEvent(RenamedTo, newPath, Some(h), env.utcNow(|events|));
        case NullHash =>
          LogEvent(RenamedTo, newPath, None, env.utcNow(|events|));
      }
    }

    /**
     * `ProcessFileChange`: nothing for a path that no longer exists; a
     * "Changed" record when the hash is obtained; nothing (an error line
     * on the console) when it comes back null.
     */
    method ProcessFileChange(path: string, env: Env) returns (outcome: ProcessOutcome)
      requires Valid()
      modifies this
      ensures Valid()
      ensures outcome == Process(env, sha256, path, |old(events)|)
      ensures events == old(events) + Emitted(outcome)
      ensures persisted == if outcome.Logged? then events else old(persisted)
      ensures pending == old(pending)
    {
      if !env.fileExists(path) {
        return Vanished;
      }
      var hash, attempts := ComputeSha256WithRetry(env.read, sha256, path);
      match hash {
        case Hash(h) =>
          outcome := Logged(LogRecord(env, |events|, Changed, path, Some(h)));
          LogEvent(Changed, path, Some(h), env.utcNow(|events|));
        case NullHash =>
          outcome := Unreadable;
        case Raised =>
          outcome := Escaped;
      }
    }

    /**
     * The body of the tick's loop for one snapshot key (lines 81-87): a
     * path still pending whose last event is settled is removed and then
     * processed; any other key is left alone.
     */
    method SettleIfQuiet(path: string, now: UtcMillis, env: Env) returns (taken: bool, outcome: ProcessOutcome)
      requires Valid()
      modifies this
      ensures Valid()
      ensures taken <==> path in old(pending) && Settled(old(pending)[path], now)
      ensures taken ==> && pending == old(pending) - {path}
                        && outcome == Process(env, sha256, path, |old(events)|)
                        && events == old(events) + Emitted(outcome)
                        && (|events| == |old(events)| ==> persisted == old(persisted))
      ensures !taken ==> pending == old(pending) && events == old(events) && persisted == old(persisted)
    {
      taken, outcome := false, Vanished;
      if path in pending {
        var lastEventTime := pending[path];
        if now - lastEventTime > DebounceMs {
          pending := pending - {path};
          taken := true;
          outcome := ProcessFileChange(path, env);
        }
      }
    }

    /**
     * `OnDebounceTimerElapsed` at tick time `now`: walks a snapshot of the
     * pending keys, removing and processing every settled path. `escaped`
     * tells whether an exception left the handler (the timer swallows it);
     * `keys` is the snapshot and `handed` the paths given to processing.
     */
    method OnDebounceTimerElapsed(now: UtcMillis, env: Env)
      returns (escaped: bool, ghost keys: seq<string>, ghost handed: seq<string>)
      requires Valid()
      modifies this
      ensures Valid()
      ensures Distinct(keys) && forall p :: p in keys <==> p in old(pending)
      ensures Tick(env, sha256, now, old(pending), old(events), keys)
           == TickResult(pending, events, handed, escaped)
      ensures |events| == |old(events)| ==> persisted == old(persisted)
    {
      var snapshot := KeysToList(pending);
      keys, handed, escaped := snapshot, [], false;
      ghost var total := Tick(env, sha256, now, pending, events, snapshot);
      ghost var events0 := events;
      var i := 0;
      while i < |snapshot|
        invariant 0 <= i <= |snapshot| && Valid()
        invariant TickResumes(total, env, sha256, now, pending, events, snapshot[i..], handed)
        invariant |events| == |events0| ==> persisted == old(persisted)
        invariant |events0| <= |events|
      {
        var path := snapshot[i];
        assert snapshot[i..][1..] == snapshot[i + 1..];
        ghost var pendingBefore, eventsBefore, handedBefore := pending, events, handed;
        var taken, outcome := SettleIfQuiet(path, now, env);
        if taken {
          TickResumesPastTaken(total, env, sha256, now, pendingBefore, eventsBefore, snapshot[i..], handedBefore);
          handed := handed + [path];
          if outcome.Escaped? {
            escaped := true;
            return;
          }
        } else {
          TickResumesPastKept(total, env, sha256, now, pending, events, snapshot[i..], handed);
        }
        i := i + 1;
      }
    }
  }
}
