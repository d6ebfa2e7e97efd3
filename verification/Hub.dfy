/** The Durable Object form of pairing: the same indexes, swept before each request, persisted after each
    change, and rebuilt from storage when the object is loaded again. */
module Hub {
  import opened Wrappers
  import opened Sets
  import opened Pairing
  import Limiter

  datatype Request =
    | Create(sess: Session)
    | ClaimRequest(ip: string, key: Key, device: Device)
    | ApproveRequest(user: nat, key: Key, approved: bool, redeemResult: Option<Tokens>)
    | Consume(key: Key)
    | Status(key: Key)

  datatype Answer = Done(sess: Session) | NotFound | Unauthorized | TooMany | Success

  /** Memory, storage and the attempts per client address. */
  datatype State = State(mem: Store, disk: map<Id, Session>, ipAttempts: Limiter.Records)

  function Persisted(h: State): State {
    h.(disk := h.mem.sessions)
  }

  function Changed(h: State, id: Id, sess: Session): State {
    Persisted(h.(mem := Assigned(h.mem, id, sess)))
  }

  /** One request at time now. */
  function Handled(before: State, now: Time, req: Request): (State, Answer) {
    var h := before.(mem := Swept(before.mem, now));
    match req
    case Create(sess) => (Persisted(h.(mem := Inserted(h.mem, sess))), Done(sess))
    case ClaimRequest(ip, key, device) =>
      if Limiter.Blocked(h.ipAttempts, ip, now) then (h, TooMany)
      else
        var found := Find(h.mem, key);
        if found.None? then
          var attempts := Limiter.AfterFailure(h.ipAttempts, ip, now);
          (h.(ipAttempts := attempts), if attempts[ip].attempts >= Limiter.MAX_ATTEMPTS then TooMany else Unauthorized)
        else
          var h' := h.(ipAttempts := h.ipAttempts - {ip});
          var sess := h.mem.sessions[found.value];
          if sess.failedAttempts >= 5 then (Persisted(h'.(mem := Removed(h.mem, found.value))), Unauthorized)
          else
            var sess' := sess.(candidate := Some(device), status := PendingApproval);
            (Changed(h', found.value, sess'), Done(sess'))
    case ApproveRequest(user, key, approved, redeemResult) =>
      var found := Find(h.mem, key);
      if found.None? || h.mem.sessions[found.value].user != user then (h, Unauthorized)
      else
        var sess := h.mem.sessions[found.value];
        var sess' := if approved then sess.(status := Approved, result := redeemResult) else sess.(status := Rejected);
        (Changed(h, found.value, sess'), Done(sess'))
    case Consume(key) =>
      var found := Find(h.mem, key);
      if found.None? then (h, Success) else (Persisted(h.(mem := Removed(h.mem, found.value))), Success)
    case Status(key) =>
      var found := Find(h.mem, key);
      (h, if found.None? then NotFound else Done(h.mem.sessions[found.value]))
  }

  /** The stored sessions among ids, loaded at time now: those not expired, each found under its keys. */
  ghost predicate IsLoaded(s: Store, disk: map<Id, Session>, ids: set<Id>, now: Time) {
    && (forall id :: id in s.sessions <==> id in ids && id in disk && disk[id].expires > now)
    && (forall id :: id in s.sessions ==> s.sessions[id] == disk[id])
    && (forall k :: k in s.codes ==> s.codes[k] in s.sessions && s.sessions[s.codes[k]].code == k)
    && (forall k :: k in s.tokens ==> s.tokens[k] in s.sessions && s.sessions[s.tokens[k]].token == k)
    && (forall id :: id in s.sessions ==> s.sessions[id].code in s.codes && s.sessions[id].token in s.tokens)
  }

  ghost predicate IsReload(s: Store, disk: map<Id, Session>, now: Time) {
    IsLoaded(s, disk, disk.Keys, now)
  }

  function LoadOne(s: Store, id: Id, sess: Session, now: Time): Store {
    if sess.expires > now
    then Store(s.sessions[id := sess], s.codes[sess.code := id], s.tokens[sess.token := id])
    else s
  }

  lemma LoadNone(disk: map<Id, Session>, now: Time)
    ensures IsLoaded(EMPTY, disk, {}, now)
  {
  }

  /** The entries of one index of the loaded sessions. */
  ghost predicate IndexOk(index: map<Key, Id>, sessions: map<Id, Session>, keyOf: Session -> Key) {
    && (forall k :: k in index ==> index[k] in sessions && keyOf(sessions[index[k]]) == k)
    && (forall id :: id in sessions ==> keyOf(sessions[id]) in index)
  }

  function CodeOf(sess: Session): Key {
    sess.code
  }

  function TokenOf(sess: Session): Key {
    sess.token
  }

  lemma LoadedParts(s: Store, disk: map<Id, Session>, ids: set<Id>, now: Time)
    ensures IsLoaded(s, disk, ids, now) <==>
      && (forall id :: id in s.sessions <==> id in ids && id in disk && disk[id].expires > now)
      && (forall id :: id in s.sessions ==> s.sessions[id] == disk[id])
      && IndexOk(s.codes, s.sessions, CodeOf) && IndexOk(s.tokens, s.sessions, TokenOf)
  {
  }

  lemma IndexOneMore(index: map<Key, Id>, sessions: map<Id, Session>, keyOf: Session -> Key, id: Id, sess: Session)
    requires IndexOk(index, sessions, keyOf) && id !in sessions
    ensures IndexOk(index[keyOf(sess) := id], sessions[id := sess], keyOf)
  {
  }

  lemma LoadOneMore(s: Store, disk: map<Id, Session>, ids: set<Id>, id: Id, now: Time)
    requires IsLoaded(s, disk, ids, now) && id in disk && id !in ids
    ensures IsLoaded(LoadOne(s, id, disk[id], now), disk, ids + {id}, now)
  {
    hide IsLoaded, IndexOk;
    LoadedParts(s, disk, ids, now);
    LoadedParts(LoadOne(s, id, disk[id], now), disk, ids + {id}, now);
    IndexOneMore(s.codes, s.sessions, CodeOf, id, disk[id]);
    IndexOneMore(s.tokens, s.sessions, TokenOf, id, disk[id]);
  }

  class PairingHub {
    var sessions: map<Id, Session>
    var codeToId: map<Key, Id>
    var tokenToId: map<Key, Id>
    var ipAttempts: Limiter.Records
    var disk: map<Id, Session>

    function Memory(): Store
      reads this
    {
      Store(sessions, codeToId, tokenToId)
    }

    function View(): State
      reads this
    {
      State(Memory(), disk, ipAttempts)
    }

    /** Loading: every stored session that has not expired, in whatever order storage lists them. */
    constructor (stored: map<Id, Session>, now: Time)
      ensures IsReload(Memory(), stored, now) && disk == stored && ipAttempts == map[]
    {
      hide IsLoaded;
      sessions, codeToId, tokenToId, ipAttempts, disk := map[], map[], map[], map[], stored;
      new;
      LoadNone(stored, now);
      var rest := stored.Keys;
      ghost var done: set<Id> := {};
      while rest != {}
        invariant done + rest == stored.Keys && done !! rest && disk == stored && ipAttempts == map[]
        invariant IsLoaded(Memory(), stored, done, now)
        decreases rest
      {
        SomeInt(rest);
        var id :| id in rest;
        LoadOneMore(Memory(), stored, done, id, now);
        var sess := stored[id];
        if sess.expires > now {
          sessions := sessions[id := sess];
          codeToId := codeToId[sess.code := id];
          tokenToId := tokenToId[sess.token := id];
        }
        done, rest := done + {id}, rest - {id};
      }
      assert done == stored.Keys;
    }

    method Persist()
      modifies this`disk
      ensures View() == Persisted(old(View()))
    {
      disk := sessions;
    }

    method CleanupExpired(now: Time)
      modifies this`sessions, this`codeToId, this`tokenToId
      ensures Memory() == Swept(old(Memory()), now)
    {
      ghost var before := Memory();
      var rest := ExpiredAt(Memory(), now);
      ghost var all, done := rest, {};
      assert RemovedAll(before, {}) == before;
      while rest != {}
        invariant done + rest == all && done !! rest
        invariant Memory() == RemovedAll(before, done)
        decreases rest
      {
        SomeInt(rest);
        var id :| id in rest;
        RemoveOneMore(before, done, id);
        var sess := sessions[id];
        codeToId := codeToId - {sess.code};
        tokenToId := tokenToId - {sess.token};
        sessions := sessions - {id};
        done, rest := done + {id}, rest - {id};
      }
      assert done == all;
    }

    method Lookup(key: Key) returns (id: Option<Id>)
      ensures id == Find(Memory(), key)
    {
      if key in codeToId {
        return if codeToId[key] in sessions then Some(codeToId[key]) else None;
      }
      if key in tokenToId && tokenToId[key] in sessions {
        return Some(tokenToId[key]);
      }
      return None;
    }

    method Fetch(now: Time, req: Request) returns (a: Answer)
      modifies this
      ensures (View(), a) == Handled(old(View()), now, req)
    {
      CleanupExpired(now);
      match req
      case Create(sess) =>
        sessions := sessions[sess.id := sess];
        codeToId := codeToId[sess.code := sess.id];
        tokenToId := tokenToId[sess.token := sess.id];
        Persist();
        return Done(sess);
      case ClaimRequest(ip, key, device) =>
        if ip in ipAttempts && ipAttempts[ip].blockedUntil > now {
          return TooMany;
        }
        var id := Lookup(key);
        if id.None? {
          var over := ip in ipAttempts && ipAttempts[ip].blockedUntil <= now;
          var count := (if over then ipAttempts[ip].attempts else 0) + 1;
          if count >= 5 {
            ipAttempts := ipAttempts[ip := Limiter.Record(count, now + 300000)];
            return TooMany;
          }
          ipAttempts := ipAttempts[ip := Limiter.Record(count, 0)];
          return Unauthorized;
        }
        ipAttempts := ipAttempts - {ip};
        var sess := sessions[id.value];
        if sess.failedAttempts >= 5 {
          RemoveSession(id.value);
          Persist();
          return Unauthorized;
        }
        sess := sess.(candidate := Some(device), status := PendingApproval);
        sessions := sessions[id.value := sess];
        Persist();
        return Done(sess);
      case ApproveRequest(user, key, approved, redeemResult) =>
        var id := Lookup(key);
        if id.None? || sessions[id.value].user != user {
          return Unauthorized;
        }
        var sess := sessions[id.value];
        if !approved {
          sess := sess.(status := Rejected);
        } else {
          sess := sess.(status := Approved, result := redeemResult);
        }
        sessions := sessions[id.value := sess];
        Persist();
        return Done(sess);
      case Consume(key) =>
        var id := Lookup(key);
        if id.Some? {
          RemoveSession(id.value);
          Persist();
        }
        return Success;
      case Status(key) =>
        var id := Lookup(key);
        return if id.None? then NotFound else Done(sessions[id.value]);
    }

    method RemoveSession(id: Id)
      requires id in sessions
      modifies this`sessions, this`codeToId, this`tokenToId
      ensures Memory() == Removed(old(Memory()), id)
    {
      var sess := sessions[id];
      sessions := sessions - {id};
      codeToId := codeToId - {sess.code};
      tokenToId := tokenToId - {sess.token};
    }
  }

  // The limiter

  /** The claims of a run as attempts under the client address: a success when the key found a session. */
  function Claims(h: State, reqs: seq<Timed>): seq<Limiter.Attempt> {
    if reqs == [] then []
    else
      var front, last := reqs[..|reqs| - 1], reqs[|reqs| - 1];
      Claims(h, front) + if last.req.ClaimRequest? then [ClaimAttempt(Run(h, front), last)] else []
  }

  function ClaimAttempt(before: State, last: Timed): Limiter.Attempt
    requires last.req.ClaimRequest?
  {
    Limiter.Attempt(last.req.ip, last.now, Find(Swept(before.mem, last.now), last.req.key).Some?)
  }

  /** What a request does to the attempts per client address is what the limiter does. */
  lemma HandledLimits(h: State, last: Timed)
    ensures var attempts := Handled(h, last.now, last.req).0.ipAttempts;
      if last.req.ClaimRequest? then
        var a := ClaimAttempt(h, last);
        attempts == if Limiter.Blocked(h.ipAttempts, a.key, a.now) then h.ipAttempts
                    else if a.success then h.ipAttempts - {a.key}
                    else Limiter.AfterFailure(h.ipAttempts, a.key, a.now)
      else attempts == h.ipAttempts
  {
    hide Swept, Find, Removed, Limiter.Blocked, Limiter.AfterFailure;
  }

  /** The attempts per client address after any run are the limiter's after the claims of that run. */
  lemma {:induction false} ClaimsAreLimited(h: State, reqs: seq<Timed>)
    requires h.ipAttempts == map[]
    ensures Run(h, reqs).ipAttempts == Limiter.Run(Claims(h, reqs))
  {
    hide Handled, Limiter.Blocked, Limiter.AfterFailure;
    if reqs != [] {
      var front, last := reqs[..|reqs| - 1], reqs[|reqs| - 1];
      ClaimsAreLimited(h, front);
      HandledLimits(Run(h, front), last);
      var claims := Claims(h, reqs);
      if last.req.ClaimRequest? {
        assert claims[..|claims| - 1] == Claims(h, front);
      } else {
        assert claims == Claims(h, front);
      }
    }
  }

  lemma {:induction false} ClaimsAreTimed(h: State, clock: Time, reqs: seq<Timed>)
    requires LegalRun(h, clock, reqs) && 0 <= clock
    ensures Limiter.Timed(Claims(h, reqs)) && 0 <= EndTime(clock, reqs)
    ensures forall i :: 0 <= i < |Claims(h, reqs)| ==> Claims(h, reqs)[i].now <= EndTime(clock, reqs)
  {
    hide Handled, Swept;
    if reqs != [] {
      ClaimsAreTimed(h, clock, reqs[..|reqs| - 1]);
    }
  }

  /** So since the object was loaded, k admitted failures from one address since its last claim that found its
      session need k - 5 blocks after the fifth. */
  lemma ClaimFailuresAreBounded(h: State, clock: Time, reqs: seq<Timed>, ip: string)
    requires LegalRun(h, clock, reqs) && 0 <= clock && h.ipAttempts == map[]
    ensures var times := Limiter.Admitted(Claims(h, reqs), ip);
      var k := |times|;
      && (k >= 5 ==> k <= 5 + (times[k - 1] - times[4]) / 300000)
      && (ip in Run(h, reqs).ipAttempts <==> k > 0) && (k > 0 ==> Run(h, reqs).ipAttempts[ip].attempts == k)
  {
    hide Handled, Limiter.Run, Limiter.Admitted, Claims;
    ClaimsAreTimed(h, clock, reqs);
    ClaimsAreLimited(h, reqs);
    Limiter.RunCounts(Claims(h, reqs), ip);
    Limiter.LimiterBound(Claims(h, reqs), ip);
  }

  // Who may change what

  /** A session that is there before and after a request keeps its owner, keys and expiry; it becomes approved,
      with the result given, only by its owner's approval, and rejected only by its owner's refusal; only a claim
      sets a candidate. */
  lemma OnlyTheOwnerDecides(h: State, now: Time, req: Request, id: Id)
    requires Inverse(h.mem) && id in h.mem.sessions && (req.Create? ==> req.sess.id != id)
    ensures id in Handled(h, now, req).0.mem.sessions ==>
      var s, s' := h.mem.sessions[id], Handled(h, now, req).0.mem.sessions[id];
      var mine := (req.ApproveRequest? || req.ClaimRequest?) && req.key in {s.code, s.token};
      var decides := mine && req.ApproveRequest? && req.user == s.user;
      && s'.id == s.id && s'.user == s.user && s'.code == s.code && s'.token == s.token && s'.expires == s.expires
      && (s'.status != s.status && s'.status == Approved ==> decides && req.approved && s'.result == req.redeemResult)
      && (s'.status != s.status && s'.status == Rejected ==> decides && !req.approved)
      && (s'.result != s.result ==> s'.status == Approved && decides)
      && (s'.candidate != s.candidate ==>
            mine && req.ClaimRequest? && s'.candidate == Some(req.device) && s'.status == PendingApproval)
  {
    hide Inverse, Swept, Removed;
    if req.ApproveRequest? || req.ClaimRequest? {
      FoundAfterSweep(h.mem, now, req.key);
    }
    if req.Consume? && Find(Swept(h.mem, now), req.key).Some? {
      RemovedSessions(Swept(h.mem, now), Find(Swept(h.mem, now), req.key).value);
    }
    if req.ClaimRequest? && Find(Swept(h.mem, now), req.key).Some? {
      RemovedSessions(Swept(h.mem, now), Find(Swept(h.mem, now), req.key).value);
    }
    SweptSessions(h.mem, now);
  }

  lemma RemovedSessions(s: Store, id: Id)
    requires id in s.sessions
    ensures Removed(s, id).sessions == s.sessions - {id}
  {
  }

  lemma SweptSessions(s: Store, now: Time)
    requires Inverse(s)
    ensures forall id :: id in Swept(s, now).sessions ==>
      id in s.sessions && Swept(s, now).sessions[id] == s.sessions[id]
    ensures forall id :: id in s.sessions ==> s.sessions[id].id == id
  {
  }

  /** A key that finds a session after the sweep is that session's code or token. */
  lemma FoundAfterSweep(s: Store, now: Time, key: Key)
    requires Inverse(s)
    ensures var found := Find(Swept(s, now), key);
      found.Some? ==> found.value in s.sessions && key in {s.sessions[found.value].code, s.sessions[found.value].token}
  {
    SweptInverse(s, now);
    SweptSessions(s, now);
  }

  // What each request does, told by the sessions that have not expired

  ghost predicate Live(h: State, now: Time, id: Id) {
    id in h.mem.sessions && h.mem.sessions[id].expires > now
  }

  /** The key is the code of the unexpired session, or its token when no unexpired session has it for a code. */
  ghost predicate NamedNow(h: State, now: Time, key: Key, id: Id) {
    Live(h, now, id) &&
    var sess := h.mem.sessions[id];
    sess.code == key || (sess.token == key && forall other :: Live(h, now, other) ==> h.mem.sessions[other].code != key)
  }

  ghost predicate NobodyNamed(h: State, now: Time, key: Key) {
    forall id :: Live(h, now, id) ==> h.mem.sessions[id].code != key && h.mem.sessions[id].token != key
  }

  lemma FindNow(h: State, now: Time, key: Key)
    requires Inverse(h.mem)
    ensures forall id :: Find(Swept(h.mem, now), key) == Some(id) <==> NamedNow(h, now, key, id)
    ensures Find(Swept(h.mem, now), key) == None <==> NobodyNamed(h, now, key)
  {
    var s := Swept(h.mem, now);
    SweptInverse(h.mem, now);
    SweptLive(h, now);
    FindNoneIff(s, key);
    forall id
      ensures Find(s, key) == Some(id) <==> NamedNow(h, now, key, id)
    {
      FindIffNamed(s, key, id);
    }
  }

  lemma SweptLive(h: State, now: Time)
    ensures forall id :: id in Swept(h.mem, now).sessions <==> Live(h, now, id)
    ensures forall id :: Live(h, now, id) ==> Swept(h.mem, now).sessions[id] == h.mem.sessions[id]
  {
  }

  /** All unexpired sessions but that of id are as before, and there are no others. */
  ghost predicate OthersKept(h: State, h': State, now: Time, id: Id) {
    && (forall other :: other != id && Live(h, now, other) ==>
          other in h'.mem.sessions && h'.mem.sessions[other] == h.mem.sessions[other])
    && (forall other :: other != id && other in h'.mem.sessions ==> Live(h, now, other))
  }

  /** No unexpired session has changed, and there are no others. */
  ghost predicate AllKept(h: State, h': State, now: Time) {
    && (forall id :: Live(h, now, id) <==> id in h'.mem.sessions)
    && (forall id :: Live(h, now, id) ==> h'.mem.sessions[id] == h.mem.sessions[id])
  }

  /** The session of id is there, in memory and in storage, with these fields and its old identity. */
  ghost predicate Becomes(h: State, h': State, id: Id, status: Status, candidate: Option<Device>,
                          result: Option<Tokens>)
    requires id in h.mem.sessions
  {
    && h'.disk == h'.mem.sessions && id in h'.mem.sessions
    && SameIdentity(h'.mem.sessions[id], h.mem.sessions[id])
    && h'.mem.sessions[id].status == status && h'.mem.sessions[id].candidate == candidate
    && h'.mem.sessions[id].result == result
  }

  /** The session of id is neither in memory nor in storage, and no key finds it. */
  ghost predicate GoneNow(h': State, id: Id) {
    && id !in h'.mem.sessions && h'.disk == h'.mem.sessions
    && Inverse(h'.mem) && forall key :: Find(h'.mem, key) != Some(id)
  }

  /** Status answers with the one unexpired session of the key, and with none iff there is none. */
  lemma StatusAnswers(h: State, now: Time, key: Key)
    requires Inverse(h.mem)
    ensures var (h', a) := Handled(h, now, Status(key));
      && AllKept(h, h', now) && h'.disk == h.disk && h'.ipAttempts == h.ipAttempts
      && (a == NotFound <==> NobodyNamed(h, now, key))
      && (forall id :: NamedNow(h, now, key, id) ==> a == Done(h.mem.sessions[id]))
  {
    hide Swept, Find, NamedNow, NobodyNamed, Inverse;
    FindNow(h, now, key);
    SweptLive(h, now);
    if Find(Swept(h.mem, now), key).Some? {
      NamedIsLive(h, now, key, Find(Swept(h.mem, now), key).value);
    }
  }

  lemma NamedIsLive(h: State, now: Time, key: Key, id: Id)
    requires NamedNow(h, now, key, id)
    ensures Live(h, now, id)
  {
  }

  /** A created session is saved, and found under its code and, unless that is a code too, its token until it
      expires. */
  lemma CreateAnswers(h: State, now: Time, sess: Session, later: Time)
    requires Inverse(h.mem) && !Live(h, now, sess.id) && NobodyNamed(h, now, sess.code)
      && NobodyNamed(h, now, sess.token)
    requires now <= later < sess.expires
    ensures var (h', a) := Handled(h, now, Create(sess));
      && a == Done(sess) && OthersKept(h, h', now, sess.id)
      && sess.id in h'.mem.sessions && h'.mem.sessions[sess.id] == sess && h'.disk == h'.mem.sessions
      && Handled(h', later, Status(sess.code)).1 == Done(sess)
      && Handled(h', later, Status(sess.token)).1 == Done(sess)
  {
    hide Swept, Inverse;
    var mem := Swept(h.mem, now);
    SweptLive(h, now);
    SweptInverse(h.mem, now);
    KeysAreNew(mem, sess);
    InverseInsert(mem, sess);
    var h' := Handled(h, now, Create(sess)).0;
    assert h'.mem == Inserted(mem, sess);
    StatusAnswers(h', later, sess.code);
    StatusAnswers(h', later, sess.token);
    assert NamedNow(h', later, sess.code, sess.id);
    assert NamedNow(h', later, sess.token, sess.id);
  }

  lemma KeysAreNew(mem: Store, sess: Session)
    requires Inverse(mem)
    requires forall id :: id in mem.sessions ==>
      mem.sessions[id].code != sess.code && mem.sessions[id].token != sess.code
      && mem.sessions[id].code != sess.token && mem.sessions[id].token != sess.token
    ensures sess.code !in mem.codes && sess.token !in mem.tokens
  {
    hide Inverse;
    IndexKeys(mem, sess.code);
    IndexKeys(mem, sess.token);
    FindNoneIff(mem, sess.code);
    FindNoneIff(mem, sess.token);
  }

  /** A claim from an address that is blocked changes nothing but the sweep. */
  lemma BlockedClaimAnswers(h: State, now: Time, ip: string, key: Key, device: Device)
    requires ip in h.ipAttempts && h.ipAttempts[ip].blockedUntil > now
    ensures var (h', a) := Handled(h, now, ClaimRequest(ip, key, device));
      a == TooMany && AllKept(h, h', now) && h'.disk == h.disk && h'.ipAttempts == h.ipAttempts
  {
    hide Swept;
    SweptLive(h, now);
  }

  /** Another claim clears the address and makes the device the candidate of the session its key names, or ends a
      session with five failed attempts; without such a session it counts a failure. */
  lemma ClaimRequestAnswers(h: State, now: Time, ip: string, key: Key, device: Device, id: Id)
    requires Inverse(h.mem) && (ip in h.ipAttempts ==> h.ipAttempts[ip].blockedUntil <= now)
    ensures var (h', a) := Handled(h, now, ClaimRequest(ip, key, device));
      && (NamedNow(h, now, key, id) ==>
            && OthersKept(h, h', now, id) && h'.ipAttempts == h.ipAttempts - {ip}
            && (h.mem.sessions[id].failedAttempts >= 5 ==> a == Unauthorized && GoneNow(h', id))
            && (h.mem.sessions[id].failedAttempts < 5 ==>
                  && Becomes(h, h', id, PendingApproval, Some(device), h.mem.sessions[id].result)
                  && a == Done(h'.mem.sessions[id])))
      && (NobodyNamed(h, now, key) ==>
            var k := (if ip in h.ipAttempts then h.ipAttempts[ip].attempts else 0) + 1;
            && AllKept(h, h', now) && h'.disk == h.disk
            && h'.ipAttempts == h.ipAttempts[ip := Limiter.Record(k, if k >= 5 then now + 300000 else 0)]
            && a == if k >= 5 then TooMany else Unauthorized)
  {
    hide Swept, Find, NamedNow, NobodyNamed, Inverse, Removed, GoneNow;
    FindNow(h, now, key);
    SweptLive(h, now);
    SweptInverse(h.mem, now);
    if NamedNow(h, now, key, id) {
      NamedIsLive(h, now, key, id);
      IdsAgree(Swept(h.mem, now), id);
      RemovedNow(Swept(h.mem, now), id, h, h.ipAttempts - {ip});
      RemovedSessions(Swept(h.mem, now), id);
    }
  }

  lemma RemovedNow(mem: Store, id: Id, h: State, attempts: Limiter.Records)
    requires Inverse(mem) && id in mem.sessions
    ensures GoneNow(Persisted(h.(mem := Removed(mem, id), ipAttempts := attempts)), id)
  {
    RemovedOnly(mem, id);
  }

  /** The owner's decision sets the status, and with an approval the result given; anybody else's changes nothing. */
  lemma ApproveAnswers(h: State, now: Time, user: nat, key: Key, approved: bool, result: Option<Tokens>, id: Id)
    requires Inverse(h.mem)
    ensures var (h', a) := Handled(h, now, ApproveRequest(user, key, approved, result));
      && h'.ipAttempts == h.ipAttempts
      && (NamedNow(h, now, key, id) && h.mem.sessions[id].user == user ==>
            var x := h.mem.sessions[id];
            && OthersKept(h, h', now, id) && a == Done(h'.mem.sessions[id])
            && if approved then Becomes(h, h', id, Approved, x.candidate, result)
               else Becomes(h, h', id, Rejected, x.candidate, x.result))
      && (NamedNow(h, now, key, id) && h.mem.sessions[id].user != user ==>
            a == Unauthorized && AllKept(h, h', now) && h'.disk == h.disk)
      && (NobodyNamed(h, now, key) ==> a == Unauthorized && AllKept(h, h', now) && h'.disk == h.disk)
  {
    hide Swept, Find, NamedNow, NobodyNamed, Inverse;
    FindNow(h, now, key);
    SweptLive(h, now);
    if NamedNow(h, now, key, id) {
      NamedIsLive(h, now, key, id);
    }
  }

  /** Consuming a session removes it from memory and storage, under both its keys. */
  lemma ConsumeAnswers(h: State, now: Time, key: Key, id: Id)
    requires Inverse(h.mem)
    ensures var (h', a) := Handled(h, now, Consume(key));
      && a == Success && h'.ipAttempts == h.ipAttempts
      && (NamedNow(h, now, key, id) ==> OthersKept(h, h', now, id) && GoneNow(h', id))
      && (NobodyNamed(h, now, key) ==> AllKept(h, h', now) && h'.disk == h.disk)
  {
    hide Swept, Find, NamedNow, NobodyNamed, Inverse, Removed, GoneNow;
    FindNow(h, now, key);
    SweptLive(h, now);
    SweptInverse(h.mem, now);
    if NamedNow(h, now, key, id) {
      NamedIsLive(h, now, key, id);
      RemovedNow(Swept(h.mem, now), id, h, h.ipAttempts);
      RemovedSessions(Swept(h.mem, now), id);
    }
  }

  /** A consumed session is not shown any more, however soon its status is asked for. */
  lemma ConsumedIsNotShown(h: State, now: Time, key: Key, id: Id, later: Time)
    requires Inverse(h.mem) && NamedNow(h, now, key, id) && now <= later
    ensures var x := h.mem.sessions[id];
      var h' := Handled(h, now, Consume(key)).0;
      forall k :: k == x.code || k == x.token ==> forall y :: Handled(h', later, Status(k)).1 == Done(y) ==> y.id != id
  {
    hide Swept, Find;
    var h' := Handled(h, now, Consume(key)).0;
    ConsumeAnswers(h, now, key, id);
    forall k, y | Handled(h', later, Status(k)).1 == Done(y)
      ensures y.id != id
    {
      StatusAnswers(h', later, k);
      FindNow(h', later, k);
      var found := Find(Swept(h'.mem, later), k);
      assert NamedNow(h', later, k, found.value);
      IdsAgree(h'.mem, found.value);
    }
  }

  // Reloading

  /** At time clock, storage is memory plus, at most, sessions that have expired. */
  ghost predicate Synced(h: State, clock: Time) {
    && Inverse(h.mem)
    && (forall id :: id in h.mem.sessions ==> id in h.disk && h.disk[id] == h.mem.sessions[id])
    && (forall id :: id in h.disk && id !in h.mem.sessions ==> h.disk[id].expires <= clock)
  }

  datatype Timed = Timed(now: Time, req: Request)

  function Run(h: State, reqs: seq<Timed>): State {
    if reqs == [] then h
    else Handled(Run(h, reqs[..|reqs| - 1]), reqs[|reqs| - 1].now, reqs[|reqs| - 1].req).0
  }

  /** Time never runs back, and created sessions have an id and keys that no live session has. */
  ghost predicate LegalRun(h: State, clock: Time, reqs: seq<Timed>) {
    reqs != [] ==>
      var front, last := reqs[..|reqs| - 1], reqs[|reqs| - 1];
      var mem := Swept(Run(h, front).mem, last.now);
      && LegalRun(h, clock, front) && EndTime(clock, front) <= last.now
      && (last.req.Create? ==> last.req.sess.id !in mem.sessions && last.req.sess.code !in mem.codes
                               && last.req.sess.token !in mem.tokens)
  }

  function EndTime(clock: Time, reqs: seq<Timed>): Time {
    if reqs == [] then clock else reqs[|reqs| - 1].now
  }

  lemma InverseChanges(s: Store, id: Id, sess: Session)
    requires Inverse(s) && id in s.sessions
    ensures sess.id == id && sess.code == s.sessions[id].code && sess.token == s.sessions[id].token ==>
      Inverse(Assigned(s, id, sess))
    ensures Inverse(Removed(s, id))
  {
  }

  lemma HandledKeepsSynced(h: State, clock: Time, now: Time, req: Request)
    requires Synced(h, clock) && clock <= now
    requires var mem := Swept(h.mem, now);
      req.Create? ==> req.sess.id !in mem.sessions && req.sess.code !in mem.codes && req.sess.token !in mem.tokens
    ensures Synced(Handled(h, now, req).0, now)
  {
    hide Inverse;
    var mem := Swept(h.mem, now);
    SweptInverse(h.mem, now);
    assert Synced(h.(mem := mem), now);
    var h' := Handled(h, now, req).0;
    match req
    case Create(sess) => InverseInsert(mem, sess);
    case ClaimRequest(ip, key, device) =>
      if Find(mem, key).Some? {
        KeysKept(mem, key);
        var sess := mem.sessions[Find(mem, key).value];
        InverseChanges(mem, Find(mem, key).value, sess.(candidate := Some(device), status := PendingApproval));
      }
    case ApproveRequest(user, key, approved, result) =>
      if Find(mem, key).Some? {
        var sess := mem.sessions[Find(mem, key).value];
        KeysKept(mem, key);
        InverseChanges(mem, Find(mem, key).value,
          if approved then sess.(status := Approved, result := result) else sess.(status := Rejected));
      }
    case Consume(key) =>
      if Find(mem, key).Some? {
        InverseChanges(mem, Find(mem, key).value, mem.sessions[Find(mem, key).value]);
      }
    case Status(key) =>
  }

  lemma KeysKept(s: Store, key: Key)
    requires Inverse(s) && Find(s, key).Some?
    ensures s.sessions[Find(s, key).value].id == Find(s, key).value
  {
  }

  lemma SweptInverse(s: Store, now: Time)
    requires Inverse(s)
    ensures Inverse(Swept(s, now))
  {
    RemovedAllKeeps(s, ExpiredAt(s, now));
  }

  lemma {:induction false} RunKeepsSynced(h: State, clock: Time, reqs: seq<Timed>)
    requires Synced(h, clock) && LegalRun(h, clock, reqs)
    ensures Synced(Run(h, reqs), EndTime(clock, reqs))
  {
    if reqs != [] {
      var front, last := reqs[..|reqs| - 1], reqs[|reqs| - 1];
      RunKeepsSynced(h, clock, front);
      HandledKeepsSynced(Run(h, front), EndTime(clock, front), last.now, last.req);
    }
  }

  /** Two stores with the same sessions and inverse indexes are the same. */
  lemma InverseIsUnique(s: Store, s': Store)
    requires Inverse(s) && Inverse(s') && s.sessions == s'.sessions
    ensures s == s'
  {
    SameIndexEntry(s, s');
    SameIndexEntry(s', s);
    assert s.codes == s'.codes && s.tokens == s'.tokens;
  }

  lemma SameIndexEntry(s: Store, s': Store)
    requires Inverse(s) && Inverse(s') && s.sessions == s'.sessions
    ensures forall k :: k in s.codes ==> k in s'.codes && s'.codes[k] == s.codes[k]
    ensures forall k :: k in s.tokens ==> k in s'.tokens && s'.tokens[k] == s.tokens[k]
  {
    forall k | k in s.codes
      ensures k in s'.codes && s'.codes[k] == s.codes[k]
    {
      var id := s.codes[k];
      assert s'.codes[s'.sessions[id].code] == id;
    }
    forall k | k in s.tokens
      ensures k in s'.tokens && s'.tokens[k] == s.tokens[k]
    {
      var id := s.tokens[k];
      assert s'.tokens[s'.sessions[id].token] == id;
    }
  }

  lemma LoadedSessions(h: State, clock: Time, now: Time, s: Store)
    requires Synced(h, clock) && clock <= now && IsReload(s, h.disk, now)
    ensures s.sessions == Swept(h.mem, now).sessions
  {
    var swept := Swept(h.mem, now);
    forall id
      ensures id in s.sessions <==> id in swept.sessions
      ensures id in s.sessions ==> s.sessions[id] == swept.sessions[id]
    {
    }
  }

  /** Loaded sessions whose indexes could be inverse have inverse indexes. */
  lemma LoadedInverse(s: Store, swept: Store, disk: map<Id, Session>, now: Time)
    requires IsReload(s, disk, now) && Inverse(swept) && s.sessions == swept.sessions
    ensures Inverse(s)
  {
    forall id | id in s.sessions
      ensures s.codes[s.sessions[id].code] == id && s.tokens[s.sessions[id].token] == id
    {
      var c, t := s.codes[s.sessions[id].code], s.tokens[s.sessions[id].token];
      assert swept.codes[swept.sessions[c].code] == c && swept.tokens[swept.sessions[t].token] == t;
    }
  }

  /** Whatever order storage is read in, loading the object again gives the memory it had, swept at that time. */
  lemma ReloadIsSweep(h: State, clock: Time, reqs: seq<Timed>, now: Time, s: Store)
    requires Synced(h, clock) && LegalRun(h, clock, reqs) && EndTime(clock, reqs) <= now
    requires IsReload(s, Run(h, reqs).disk, now)
    ensures s == Swept(Run(h, reqs).mem, now)
  {
    hide Inverse, IsReload, Swept;
    RunKeepsSynced(h, clock, reqs);
    var h' := Run(h, reqs);
    SweptInverse(h'.mem, now);
    LoadedSessions(h', EndTime(clock, reqs), now, s);
    LoadedInverse(s, Swept(h'.mem, now), h'.disk, now);
    InverseIsUnique(s, Swept(h'.mem, now));
  }
}
