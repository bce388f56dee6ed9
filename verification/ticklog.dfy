/**
 * What a debounce tick of Services/IntegrityWatcher.cs (lines 74-90) writes
 * to the audit log, path by path, and what a burst of raw events for one
 * path (lines 52-55) followed by a tick leads to.
 */
module TickLog {
  import opened Wrappers
  import opened Records
  import opened Digest
  import opened Processing

  /**
   * Exactly one record of `after` past the first `n` is for `path`: the
   * "Changed" record with hash `hash`, stamped when it became entry k.
   */
  predicate ChangedOnceAfter(env: Env, n: nat, after: seq<FileChangeEvent>, path: string, hash: string) {
    exists k :: && n <= k < |after| && after[k] == LogRecord(env, k, Changed, path, Some(hash))
                && forall k' :: n <= k' < |after| && after[k'].filePath == path ==> k' == k
  }

  /** Records for other paths in front of the one for `path` leave it the only one. */
  lemma ChangedOnceEarlier(env: Env, n: nat, m: nat, after: seq<FileChangeEvent>, path: string, hash: string)
    requires n <= m && ChangedOnceAfter(env, m, after, path, hash)
    requires forall k :: n <= k < m && k < |after| ==> after[k].filePath != path
    ensures ChangedOnceAfter(env, n, after, path, hash)
  {
  }

  /** The head of a sequence without repeats does not occur in its tail. */
  lemma DistinctHead<T>(s: seq<T>)
    requires s != [] && Distinct(s)
    ensures s[0] !in s[1..]
  {
  }

  /** An entry of the prefix a sequence starts with. */
  lemma PrefixEntry<T>(after: seq<T>, prefix: seq<T>, k: nat)
    requires |prefix| <= |after| && after[..|prefix|] == prefix && k < |prefix|
    ensures after[k] == prefix[k]
  {
  }

  /**
   * The record at entry n is the only one for `path` when every later
   * record is for a path of `others` and `path` is not among them.
   */
  lemma ChangedOnceFirst(env: Env, n: nat, after: seq<FileChangeEvent>, others: seq<string>, path: string, hash: string)
    requires n < |after| && after[n] == LogRecord(env, n, Changed, path, Some(hash))
    requires OnlyChangedAfter(env, n + 1, after, others) && path !in others
    ensures ChangedOnceAfter(env, n, after, path, hash)
  {
  }

  /** A settled key whose file exists and hashes is logged by the tick that takes it, and only there. */
  lemma TakenPathLoggedOnce(env: Env, sha256: Sha256, now: UtcMillis,
      pending: map<string, UtcMillis>, events: seq<FileChangeEvent>, keys: seq<string>)
    requires keys != [] && keys[0] in pending && Settled(pending[keys[0]], now)
    requires env.fileExists(keys[0]) && Retry(env.read, sha256, keys[0], DefaultRetries).Hash?
    ensures ChangedOnceAfter(env, |events|, Tick(env, sha256, now, pending, events, keys).events, keys[0],
                             Retry(env.read, sha256, keys[0], DefaultRetries).hex)
  {
    var path := keys[0];
    var o := Process(env, sha256, path, |events|);
    var events' := events + Emitted(o);
    var rest := Tick(env, sha256, now, pending - {path}, events', keys[1..]);
    TickOnlyAppends(env, sha256, now, pending - {path}, events', keys[1..]);
    TickAppendsOnlyChanged(env, sha256, now, pending - {path}, events', keys[1..]);
    TickHandsEachRemovedPathOnce(env, sha256, now, pending, events, keys);
    assert ([path] + rest.handed)[1..] == rest.handed;
    DistinctHead([path] + rest.handed);
    PrefixEntry(rest.events, events', |events|);
    ChangedOnceFirst(env, |events|, rest.events, rest.handed, path, Retry(env.read, sha256, path, DefaultRetries).hex);
  }

  /** A record for another path in front of the one for `path` leaves it the only one. */
  lemma ChangedOncePastOther(env: Env, n: nat, after: seq<FileChangeEvent>, path: string, hash: string)
    requires n < |after| && after[n].filePath != path
    requires ChangedOnceAfter(env, n + 1, after, path, hash)
    ensures ChangedOnceAfter(env, n, after, path, hash)
  {
  }

  /** Taking a settled key for another path keeps the one record for `p` the rest of the tick writes. */
  lemma TakenOtherPathKeeps(env: Env, sha256: Sha256, now: UtcMillis,
      pending: map<string, UtcMillis>, events: seq<FileChangeEvent>, keys: seq<string>, p: string, hash: string)
    requires keys != [] && keys[0] in pending && Settled(pending[keys[0]], now) && keys[0] != p
    requires !Process(env, sha256, keys[0], |events|).Escaped?
    requires ChangedOnceAfter(env, |events + Emitted(Process(env, sha256, keys[0], |events|))|,
      Tick(env, sha256, now, pending - {keys[0]}, events + Emitted(Process(env, sha256, keys[0], |events|)), keys[1..]).events,
      p, hash)
    ensures ChangedOnceAfter(env, |events|, Tick(env, sha256, now, pending, events, keys).events, p, hash)
  {
    var path := keys[0];
    var o := Process(env, sha256, path, |events|);
    var events' := events + Emitted(o);
    var after := Tick(env, sha256, now, pending - {path}, events', keys[1..]).events;
    assert Tick(env, sha256, now, pending, events, keys).events == after;
    if o.Logged? {
      TickOnlyAppends(env, sha256, now, pending - {path}, events', keys[1..]);
      PrefixEntry(after, events', |events|);
      ChangedOncePastOther(env, |events|, after, p, hash);
    } else {
      assert events' == events;
    }
  }

  /**
   * Every path a tick hands to processing whose file exists and hashes is
   * logged exactly once by that tick, as a "Changed" record with its hash.
   */
  lemma {:induction false} TickLogsEachHashedPathOnce(env: Env, sha256: Sha256, now: UtcMillis,
      pending: map<string, UtcMillis>, events: seq<FileChangeEvent>, keys: seq<string>, p: string)
    requires p in Tick(env, sha256, now, pending, events, keys).handed
    requires env.fileExists(p) && Retry(env.read, sha256, p, DefaultRetries).Hash?
    ensures ChangedOnceAfter(env, |events|, Tick(env, sha256, now, pending, events, keys).events, p,
                             Retry(env.read, sha256, p, DefaultRetries).hex)
    decreases |keys|
  {
    var path := keys[0];
    if path in pending && Settled(pending[path], now) {
      var o := Process(env, sha256, path, |events|);
      if o.Escaped? {
        assert false;
      }
      if path == p {
        TakenPathLoggedOnce(env, sha256, now, pending, events, keys);
      } else {
        TickLogsEachHashedPathOnce(env, sha256, now, pending - {path}, events + Emitted(o), keys[1..], p);
        TakenOtherPathKeeps(env, sha256, now, pending, events, keys, p, Retry(env.read, sha256, p, DefaultRetries).hex);
      }
    } else {
      TickLogsEachHashedPathOnce(env, sha256, now, pending, events, keys[1..], p);
    }
  }

  /** The pending map after raw create/change events for `path` at the given times, in order. */
  function Burst(pending: map<string, UtcMillis>, path: string, times: seq<UtcMillis>): map<string, UtcMillis>
    decreases |times|
  {
    if times == [] then pending else Burst(pending[path := times[0]], path, times[1..])
  }

  /** Last write wins: a burst leaves the time of its last event and touches no other path. */
  lemma {:induction false} BurstLastWins(pending: map<string, UtcMillis>, path: string, times: seq<UtcMillis>)
    requires times != []
    ensures Burst(pending, path, times) == pending[path := times[|times| - 1]]
    decreases |times|
  {
    if |times| > 1 {
      BurstLastWins(pending[path := times[0]], path, times[1..]);
      assert pending[path := times[0]][path := times[|times| - 1]] == pending[path := times[|times| - 1]];
    }
  }

  /**
   * A burst of events for `path`, followed by a tick more than 1000 ms
   * after the last of them that runs to the end over the key snapshot,
   * hands `path` to processing exactly once and leaves it no longer pending.
   */
  lemma BurstSettlesOnce(env: Env, sha256: Sha256, now: UtcMillis, pending: map<string, UtcMillis>,
      events: seq<FileChangeEvent>, path: string, times: seq<UtcMillis>, keys: seq<string>)
    requires times != [] && Settled(times[|times| - 1], now)
    requires forall p :: p in Burst(pending, path, times) ==> p in keys
    requires !Tick(env, sha256, now, Burst(pending, path, times), events, keys).escaped
    ensures var r := Tick(env, sha256, now, Burst(pending, path, times), events, keys);
      && path !in r.pending
      && |set i | 0 <= i < |r.handed| && r.handed[i] == path| == 1
      && (env.fileExists(path) && Retry(env.read, sha256, path, DefaultRetries).Hash? ==>
            ChangedOnceAfter(env, |events|, r.events, path, Retry(env.read, sha256, path, DefaultRetries).hex))
  {
    var before := Burst(pending, path, times);
    BurstLastWins(pending, path, times);
    TickSettlesExactly(env, sha256, now, before, events, keys);
    TickHandsEachRemovedPathOnce(env, sha256, now, before, events, keys);
    var r := Tick(env, sha256, now, before, events, keys);
    assert path in before && before[path] == times[|times| - 1];
    assert path in r.handed;
    var i :| 0 <= i < |r.handed| && r.handed[i] == path;
    assert (set j | 0 <= j < |r.handed| && r.handed[j] == path) == {i};
    if env.fileExists(path) && Retry(env.read, sha256, path, DefaultRetries).Hash? {
      TickLogsEachHashedPathOnce(env, sha256, now, before, events, keys, path);
    }
  }
}
