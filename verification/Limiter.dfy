/** The failed-attempt limiter of the worker, also used per client address by PairingHub. */
module Limiter {
  import opened Wrappers

  type Key = string

  const MAX_ATTEMPTS := 5
  const BLOCK_MS := 300000

  datatype Record = Record(attempts: nat, blockedUntil: int)

  type Records = map<Key, Record>

  predicate Blocked(m: Records, key: Key, now: int) {
    key in m && m[key].blockedUntil > now
  }

  /** The count survives the end of a block; it is lost while a block lasts. */
  function AfterFailure(m: Records, key: Key, now: int): Records {
    var count := (if key in m && m[key].blockedUntil <= now then m[key].attempts else 0) + 1;
    m[key := Record(count, if count >= MAX_ATTEMPTS then now + BLOCK_MS else 0)]
  }

  class RateLimiter {
    var records: Records

    constructor ()
      ensures records == map[]
    {
      records := map[];
    }

    /** checkRateLimit: None, or the seconds to wait, rounded up. */
    method Check(key: Key, now: int) returns (wait: Option<int>)
      ensures wait.Some? <==> Blocked(records, key, now)
      ensures wait.Some? ==> 1000 * (wait.value - 1) < records[key].blockedUntil - now <= 1000 * wait.value
    {
      if key in records && records[key].blockedUntil > now {
        return Some((records[key].blockedUntil - now + 999) / 1000);
      }
      return None;
    }

    method RecordFailedAttempt(key: Key, now: int)
      modifies this
      ensures records == AfterFailure(old(records), key, now)
    {
      var count := 1;
      if key in records && records[key].blockedUntil <= now {
        count := records[key].attempts + 1;
      }
      if count >= MAX_ATTEMPTS {
        records := records[key := Record(count, now + BLOCK_MS)];
      } else {
        records := records[key := Record(count, 0)];
      }
    }

    method RecordSuccess(key: Key)
      modifies this
      ensures records == old(records) - {key}
    {
      records := records - {key};
    }
  }

  // Runs

  /** An attempt under a key: checked, and recorded as a failure or a success when it was let through. */
  datatype Attempt = Attempt(key: Key, now: int, success: bool)

  function Run(attempts: seq<Attempt>): Records {
    if attempts == [] then map[]
    else
      var m, a := Run(attempts[..|attempts| - 1]), attempts[|attempts| - 1];
      if Blocked(m, a.key, a.now) then m
      else if a.success then m - {a.key}
      else AfterFailure(m, a.key, a.now)
  }

  /** The times of the failures admitted under a key since its last admitted success. */
  function Admitted(attempts: seq<Attempt>, key: Key): seq<int> {
    if attempts == [] then []
    else
      var front, a := attempts[..|attempts| - 1], attempts[|attempts| - 1];
      if a.key != key || Blocked(Run(front), key, a.now) then Admitted(front, key)
      else if a.success then []
      else Admitted(front, key) + [a.now]
  }

  /** The clock starts at zero and never runs back. */
  predicate Timed(attempts: seq<Attempt>) {
    && (forall i :: 0 <= i < |attempts| ==> 0 <= attempts[i].now)
    && (forall i, j :: 0 <= i < j < |attempts| ==> attempts[i].now <= attempts[j].now)
  }

  /** The record of a key counts its admitted failures, and blocks from the fifth on. */
  ghost predicate Counts(m: Records, key: Key, times: seq<int>) {
    var k := |times|;
    && (key in m <==> k > 0)
    && (k > 0 ==> m[key] == Record(k, if k >= MAX_ATTEMPTS then times[k - 1] + BLOCK_MS else 0))
  }

  /** An admitted success under a key clears its record, and a failure let through counts one more. */
  lemma AttemptCounts(attempts: seq<Attempt>, a: Attempt)
    requires Timed(attempts) && 0 <= a.now && !Blocked(Run(attempts), a.key, a.now)
    ensures var m, k := Run(attempts + [a]), |Admitted(attempts, a.key)| + 1;
      && (a.success ==> a.key !in m)
      && (!a.success ==> a.key in m && m[a.key] == Record(k, if k < 5 then 0 else a.now + 300000))
  {
    RunCounts(attempts, a.key);
    assert (attempts + [a])[..|attempts|] == attempts;
  }

  ghost predicate Spaced(times: seq<int>) {
    forall i :: MAX_ATTEMPTS <= i < |times| ==> times[i] >= times[i - 1] + BLOCK_MS
  }

  lemma {:induction false} RunCounts(attempts: seq<Attempt>, key: Key)
    requires Timed(attempts)
    ensures Counts(Run(attempts), key, Admitted(attempts, key)) && Spaced(Admitted(attempts, key))
  {
    if attempts != [] {
      RunCounts(attempts[..|attempts| - 1], key);
    }
  }

  /** An attempt is let through iff fewer than five failures were since the last success, or the last of them is five
      minutes old. */
  lemma AdmittedIff(attempts: seq<Attempt>, key: Key, now: int)
    requires Timed(attempts) && 0 <= now
    ensures var times := Admitted(attempts, key);
      !Blocked(Run(attempts), key, now) <==> |times| < 5 || now >= times[|times| - 1] + 300000
  {
    RunCounts(attempts, key);
  }

  lemma {:induction false} SpacedSpan(times: seq<int>, k: nat)
    requires Spaced(times) && MAX_ATTEMPTS <= k <= |times|
    ensures times[k - 1] - times[MAX_ATTEMPTS - 1] >= (k - MAX_ATTEMPTS) * BLOCK_MS
  {
    if k > MAX_ATTEMPTS {
      SpacedSpan(times, k - 1);
    }
  }

  /** Since the last success, k admitted failures need (k - 5) blocks after the fifth, whatever other keys do. */
  lemma LimiterBound(attempts: seq<Attempt>, key: Key)
    requires Timed(attempts)
    ensures var times := Admitted(attempts, key);
      var k := |times|;
      k >= 5 ==> k <= 5 + (times[k - 1] - times[4]) / 300000
  {
    var times := Admitted(attempts, key);
    RunCounts(attempts, key);
    if |times| >= MAX_ATTEMPTS {
      SpacedSpan(times, |times|);
    }
  }
}
