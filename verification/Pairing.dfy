/** Device pairing sessions under two indexes, and the steps the service takes while it holds the lock. */
module Pairing {
  import opened Wrappers
  import opened Sets

  type Id = int
  type Key = string
  type Time = int
  type Device = nat
  type Tokens = nat

  datatype Status = PendingRedeem | PendingApproval | Approved | Rejected

  datatype Session = Session(id: Id, user: nat, code: Key, token: Key, expires: Time, status: Status,
                             failedAttempts: nat, candidate: Option<Device>, result: Option<Tokens>)

  datatype Error = Invalid | Expired | TooManyAttempts | NotOwner | NoCandidate | WasRejected | Waiting

  /** The session table and its two indexes. */
  datatype Store = Store(sessions: map<Id, Session>, codes: map<Key, Id>, tokens: map<Key, Id>)

  const EMPTY := Store(map[], map[], map[])

  // The store

  function Inserted(s: Store, sess: Session): Store {
    Store(s.sessions[sess.id := sess], s.codes[sess.code := sess.id], s.tokens[sess.token := sess.id])
  }

  function Removed(s: Store, id: Id): Store {
    if id in s.sessions
    then Store(s.sessions - {id}, s.codes - {s.sessions[id].code}, s.tokens - {s.sessions[id].token})
    else s
  }

  function Find(s: Store, key: Key): (r: Option<Id>)
    ensures r.Some? ==> r.value in s.sessions
  {
    if key in s.codes then
      if s.codes[key] in s.sessions then Some(s.codes[key]) else None
    else if key in s.tokens && s.tokens[key] in s.sessions then Some(s.tokens[key]) else None
  }

  /** The session of id changed by an assignment to some of its fields. */
  function Assigned(s: Store, id: Id, sess: Session): Store {
    s.(sessions := s.sessions[id := sess])
  }

  function ExpiredAt(s: Store, now: Time): set<Id> {
    set id | id in s.sessions && s.sessions[id].expires <= now
  }

  /** Everything the sweep at time now removes, removed at once. */
  function Swept(s: Store, now: Time): Store {
    RemovedAll(s, ExpiredAt(s, now))
  }

  function RemovedAll(s: Store, ids: set<Id>): Store {
    Store(s.sessions - ids, s.codes - CodesOf(s, ids), s.tokens - TokensOf(s, ids))
  }

  function CodesOf(s: Store, ids: set<Id>): set<Key> {
    set id | id in ids && id in s.sessions :: s.sessions[id].code
  }

  function TokensOf(s: Store, ids: set<Id>): set<Key> {
    set id | id in ids && id in s.sessions :: s.sessions[id].token
  }

  lemma KeysOfMember(s: Store, ids: set<Id>, id: Id)
    requires id in ids && id in s.sessions
    ensures s.sessions[id].code in CodesOf(s, ids) && s.sessions[id].token in TokensOf(s, ids)
  {
  }

  // The steps under the lock

  function Claim(s: Store, key: Key, now: Time, device: Device): (Store, Result<Id, Error>) {
    match Find(s, key)
    case None => (s, Err(Invalid))
    case Some(id) =>
      var sess := s.sessions[id];
      if sess.expires < now then (s, Err(Expired))
      else if sess.failedAttempts >= 5 then (Removed(s, sess.id), Err(TooManyAttempts))
      else (Assigned(s, id, sess.(candidate := Some(device), status := PendingApproval)), Ok(id))
  }

  /** The owner's decision: a rejection takes effect at once, an approval only captures the session. */
  function Decide(s: Store, user: nat, key: Key, now: Time, approved: bool): (Store, Result<Id, Error>) {
    match Find(s, key)
    case None => (s, Err(Invalid))
    case Some(id) =>
      var sess := s.sessions[id];
      if sess.user != user then (s, Err(NotOwner))
      else if sess.expires < now then (s, Err(Expired))
      else if !approved then (Assigned(s, id, sess.(status := Rejected)), Ok(id))
      else if sess.candidate.None? then (s, Err(NoCandidate))
      else (s, Ok(id))
  }

  /** After the device was created without the lock: store the result, if the key still finds a session. */
  function Commit(s: Store, key: Key, result: Tokens): Store {
    match Find(s, key)
    case None => s
    case Some(id) => Assigned(s, id, s.sessions[id].(status := Approved, result := Some(result)))
  }

  datatype RedeemAnswer = HandOut(id: Id, result: Tokens) | Direct(session: Session) | Refused(error: Error)

  function Redeem(s: Store, key: Key, now: Time): (Store, RedeemAnswer) {
    match Find(s, key)
    case None => (s, Refused(Invalid))
    case Some(id) =>
      var sess := s.sessions[id];
      if sess.expires < now then (s, Refused(Expired))
      else if sess.status == Rejected then (s, Refused(WasRejected))
      else if sess.result.Some? then (Removed(s, sess.id), HandOut(sess.id, sess.result.value))
      else if sess.status == PendingApproval then (s, Refused(Waiting))
      else (s, Direct(sess))
  }

  class PairingStore {
    var sessions: map<Id, Session>
    var codeToId: map<Key, Id>
    var tokenToId: map<Key, Id>

    function View(): Store
      reads this
    {
      Store(sessions, codeToId, tokenToId)
    }

    constructor ()
      ensures View() == EMPTY
    {
      sessions, codeToId, tokenToId := map[], map[], map[];
    }

    method Insert(session: Session)
      modifies this
      ensures View() == Inserted(old(View()), session)
    {
      codeToId := codeToId[session.code := session.id];
      tokenToId := tokenToId[session.token := session.id];
      sessions := sessions[session.id := session];
    }

    method GetByKey(key: Key) returns (r: Option<Session>)
      ensures r == match Find(View(), key) case None => None case Some(id) => Some(sessions[id])
    {
      if key in codeToId {
        var id := codeToId[key];
        return if id in sessions then Some(sessions[id]) else None;
      }
      if key in tokenToId {
        var id := tokenToId[key];
        return if id in sessions then Some(sessions[id]) else None;
      }
      return None;
    }

    method Remove(id: Id) returns (r: Option<Session>)
      modifies this
      ensures View() == Removed(old(View()), id)
      ensures r == if id in old(sessions) then Some(old(sessions)[id]) else None
    {
      if id !in sessions {
        return None;
      }
      var sess := sessions[id];
      sessions := sessions - {id};
      codeToId := codeToId - {sess.code};
      tokenToId := tokenToId - {sess.token};
      return Some(sess);
    }

    /** The expired ids are collected first, in any order, and removed one by one. */
    method CleanupExpired(now: Time)
      modifies this
      ensures View() == Swept(old(View()), now)
    {
      ghost var before := View();
      var expired := ExpiredAt(View(), now);
      var rest := expired;
      ghost var done: set<Id> := {};
      assert RemovedAll(before, {}) == before;
      while rest != {}
        invariant done + rest == expired && done !! rest
        invariant View() == RemovedAll(before, done)
        decreases rest
      {
        SomeInt(rest);
        var id :| id in rest;
        RemoveOneMore(before, done, id);
        var _ := Remove(id);
        done, rest := done + {id}, rest - {id};
      }
      assert done == expired;
    }

    method ClaimSession(key: Key, now: Time, device: Device) returns (r: Result<Id, Error>)
      modifies this
      ensures (View(), r) == Claim(old(View()), key, now, device)
    {
      var found := GetByKey(key);
      if found.None? {
        return Err(Invalid);
      }
      var id := Find(View(), key).value;
      var sess := found.value;
      if sess.expires < now {
        return Err(Expired);
      }
      if sess.failedAttempts >= 5 {
        var _ := Remove(sess.id);
        return Err(TooManyAttempts);
      }
      sess := sess.(candidate := Some(device));
      sess := sess.(status := PendingApproval);
      sessions := sessions[id := sess];
      return Ok(id);
    }

    method DecideSession(user: nat, key: Key, now: Time, approved: bool) returns (r: Result<Id, Error>)
      modifies this
      ensures (View(), r) == Decide(old(View()), user, key, now, approved)
    {
      var found := GetByKey(key);
      if found.None? {
        return Err(Invalid);
      }
      var id := Find(View(), key).value;
      var sess := found.value;
      if sess.user != user {
        return Err(NotOwner);
      }
      if sess.expires < now {
        return Err(Expired);
      }
      if !approved {
        sessions := sessions[id := sess.(status := Rejected)];
        return Ok(id);
      }
      if sess.candidate.None? {
        return Err(NoCandidate);
      }
      return Ok(id);
    }

    method CommitApproval(key: Key, result: Tokens)
      modifies this
      ensures View() == Commit(old(View()), key, result)
    {
      var found := GetByKey(key);
      if found.Some? {
        var id := Find(View(), key).value;
        sessions := sessions[id := found.value.(status := Approved, result := Some(result))];
      }
    }

    method RedeemSession(key: Key, now: Time) returns (r: RedeemAnswer)
      modifies this
      ensures (View(), r) == Redeem(old(View()), key, now)
    {
      var found := GetByKey(key);
      if found.None? {
        return Refused(Invalid);
      }
      var sess := found.value;
      if sess.expires < now {
        return Refused(Expired);
      }
      if sess.status == Rejected {
        return Refused(WasRejected);
      }
      if sess.result.Some? {
        var _ := Remove(sess.id);
        return HandOut(sess.id, sess.result.value);
      }
      if sess.status == PendingApproval {
        return Refused(Waiting);
      }
      return Direct(sess);
    }
  }

  lemma RemoveOneMore(s: Store, done: set<Id>, id: Id)
    requires id in s.sessions && id !in done
    ensures Removed(RemovedAll(s, done), id) == RemovedAll(s, done + {id})
  {
    var a, b := Removed(RemovedAll(s, done), id), RemovedAll(s, done + {id});
    assert a.sessions == b.sessions;
    assert a.codes.Keys == b.codes.Keys;
    assert a.tokens.Keys == b.tokens.Keys;
  }

  // The indexes

  /** No code or token entry dangles: it points to a live session that holds this very key. */
  ghost predicate NoDangling(s: Store) {
    && (forall id :: id in s.sessions ==> s.sessions[id].id == id)
    && (forall k :: k in s.codes ==> s.codes[k] in s.sessions && s.sessions[s.codes[k]].code == k)
    && (forall k :: k in s.tokens ==> s.tokens[k] in s.sessions && s.sessions[s.tokens[k]].token == k)
  }

  /** The session table and the indexes are inverse to each other. */
  ghost predicate Inverse(s: Store) {
    && NoDangling(s)
    && (forall id :: id in s.sessions ==> s.sessions[id].code in s.codes && s.codes[s.sessions[id].code] == id)
    && (forall id :: id in s.sessions ==> s.sessions[id].token in s.tokens && s.tokens[s.sessions[id].token] == id)
  }

  lemma RemovedAllKeeps(s: Store, ids: set<Id>)
    requires NoDangling(s)
    ensures NoDangling(RemovedAll(s, ids))
    ensures Inverse(s) ==> Inverse(RemovedAll(s, ids))
  {
    var s' := RemovedAll(s, ids);
    forall k | k in s'.codes
      ensures s'.codes[k] !in ids
    {
      if s.codes[k] in ids {
        KeysOfMember(s, ids, s.codes[k]);
      }
    }
    forall k | k in s'.tokens
      ensures s'.tokens[k] !in ids
    {
      if s.tokens[k] in ids {
        KeysOfMember(s, ids, s.tokens[k]);
      }
    }
  }

  lemma InverseInsert(s: Store, sess: Session)
    requires Inverse(s) && sess.id !in s.sessions && sess.code !in s.codes && sess.token !in s.tokens
    ensures Inverse(Inserted(s, sess))
  {
    hide Inverse;
    InverseInsertIff(s, sess);
  }

  /** Inserting a session with a fresh id keeps the maps inverse iff both its keys are fresh. */
  lemma InverseInsertIff(s: Store, sess: Session)
    requires Inverse(s) && sess.id !in s.sessions
    ensures Inverse(Inserted(s, sess)) <==> sess.code !in s.codes && sess.token !in s.tokens
  {
    var s' := Inserted(s, sess);
    if sess.code in s.codes {
      var holder := s.codes[sess.code];
      assert holder in s'.sessions && s'.codes[s'.sessions[holder].code] != holder;
    }
    if sess.token in s.tokens {
      var holder := s.tokens[sess.token];
      assert holder in s'.sessions && s'.tokens[s'.sessions[holder].token] != holder;
    }
  }

  // What each step does, told by the sessions

  /** The key is the session's code, or its token when no session has it for a code. */
  ghost predicate Named(s: Store, key: Key, id: Id) {
    id in s.sessions &&
    var sess := s.sessions[id];
    sess.code == key || (sess.token == key && forall other :: other in s.sessions ==> s.sessions[other].code != key)
  }

  /** The keys of the indexes are those of the sessions. */
  lemma IndexKeys(s: Store, key: Key)
    requires Inverse(s)
    ensures key in s.codes ==> s.codes[key] in s.sessions && s.sessions[s.codes[key]].code == key
    ensures key in s.tokens ==> s.tokens[key] in s.sessions && s.sessions[s.tokens[key]].token == key
    ensures forall id :: id in s.sessions && s.sessions[id].code == key ==> key in s.codes && s.codes[key] == id
    ensures forall id :: id in s.sessions && s.sessions[id].token == key ==> key in s.tokens && s.tokens[key] == id
  {
  }

  lemma FindIffNamed(s: Store, key: Key, id: Id)
    requires Inverse(s)
    ensures Find(s, key) == Some(id) <==> Named(s, key, id)
  {
    hide Inverse;
    IndexKeys(s, key);
    if key in s.codes {
      var holder := s.codes[key];
      assert holder in s.sessions && s.sessions[holder].code == key;
    } else if key in s.tokens {
      var holder := s.tokens[key];
      assert holder in s.sessions && s.sessions[holder].token == key;
    }
  }

  lemma FindNoneIff(s: Store, key: Key)
    requires Inverse(s)
    ensures Find(s, key) == None <==>
      forall id :: id in s.sessions ==> s.sessions[id].code != key && s.sessions[id].token != key
  {
    hide Inverse;
    IndexKeys(s, key);
    if key in s.codes {
      var holder := s.codes[key];
      assert holder in s.sessions && s.sessions[holder].code == key;
    } else if key in s.tokens {
      var holder := s.tokens[key];
      assert holder in s.sessions && s.sessions[holder].token == key;
    } else {
      forall id | id in s.sessions
        ensures s.sessions[id].code != key && s.sessions[id].token != key
      {
      }
    }
  }

  /** Who a session belongs to, how it is found and how long it lasts. */
  predicate SameIdentity(a: Session, b: Session) {
    && a.id == b.id && a.user == b.user && a.code == b.code && a.token == b.token
    && a.expires == b.expires && a.failedAttempts == b.failedAttempts
  }

  /** Only the session of id changes, and that not in its identity. */
  ghost predicate OnlyChanges(s: Store, s': Store, id: Id) {
    && s'.codes == s.codes && s'.tokens == s.tokens && s'.sessions.Keys == s.sessions.Keys
    && (forall other :: other in s.sessions && other != id ==> s'.sessions[other] == s.sessions[other])
    && (id in s.sessions ==> SameIdentity(s'.sessions[id], s.sessions[id]))
  }

  /** Only the session of id goes, and nothing finds it any more. */
  ghost predicate OnlyRemoves(s: Store, s': Store, id: Id) {
    && Inverse(s') && s'.sessions.Keys == s.sessions.Keys - {id}
    && (forall other :: other in s'.sessions ==> s'.sessions[other] == s.sessions[other])
    && (forall key :: Find(s', key) != Some(id))
  }

  lemma RemovedOnly(s: Store, id: Id)
    requires Inverse(s) && id in s.sessions
    ensures OnlyRemoves(s, Removed(s, id), id)
  {
  }

  /** A claim: refused after the expiry, the end of the session after five failed attempts, and otherwise the
      device becomes the candidate and the owner is asked. */
  lemma ClaimAnswers(s: Store, key: Key, now: Time, device: Device, id: Id)
    requires Inverse(s) && Named(s, key, id)
    ensures var (s', r) := Claim(s, key, now, device);
      var x := s.sessions[id];
      if x.expires < now then s' == s && r == Err(Expired)
      else if x.failedAttempts >= 5 then OnlyRemoves(s, s', id) && r == Err(TooManyAttempts)
      else
        && r == Ok(id) && OnlyChanges(s, s', id)
        && s'.sessions[id].candidate == Some(device) && s'.sessions[id].status == PendingApproval
        && s'.sessions[id].result == x.result
  {
    hide Named, OnlyRemoves;
    FindIffNamed(s, key, id);
    assert id in s.sessions;
    IdsAgree(s, id);
    RemovedOnly(s, id);
  }

  lemma IdsAgree(s: Store, id: Id)
    requires Inverse(s) && id in s.sessions
    ensures s.sessions[id].id == id
  {
  }

  /** A decision: nobody else's changes anything, and none does after the expiry; the owner's refusal rejects, and
      the owner's approval passes iff there is a candidate, still without changing anything. */
  lemma DecideAnswers(s: Store, user: nat, key: Key, now: Time, approved: bool, id: Id)
    requires Inverse(s) && Named(s, key, id)
    ensures var (s', r) := Decide(s, user, key, now, approved);
      var x := s.sessions[id];
      if user != x.user then s' == s && r == Err(NotOwner)
      else if x.expires < now then s' == s && r == Err(Expired)
      else if approved then s' == s && r == (if x.candidate == None then Err(NoCandidate) else Ok(id))
      else
        && r == Ok(id) && OnlyChanges(s, s', id) && s'.sessions[id].status == Rejected
        && s'.sessions[id].candidate == x.candidate && s'.sessions[id].result == x.result
  {
    hide Named;
    FindIffNamed(s, key, id);
  }

  /** The end of an approval leaves the result with the session. */
  lemma CommitAnswers(s: Store, key: Key, result: Tokens, id: Id)
    requires Inverse(s) && Named(s, key, id)
    ensures var s' := Commit(s, key, result);
      && OnlyChanges(s, s', id) && s'.sessions[id].status == Approved
      && s'.sessions[id].result == Some(result) && s'.sessions[id].candidate == s.sessions[id].candidate
  {
    hide Named;
    FindIffNamed(s, key, id);
  }

  /** A redemption: nothing after the expiry or a rejection; a stored result is handed out and the session goes; a
      claimed session has to wait; a fresh one starts the direct path. */
  lemma RedeemAnswers(s: Store, key: Key, now: Time, id: Id)
    requires Inverse(s) && Named(s, key, id)
    ensures var (s', r) := Redeem(s, key, now);
      var x := s.sessions[id];
      if x.expires < now then s' == s && r == Refused(Expired)
      else if x.status == Rejected then s' == s && r == Refused(WasRejected)
      else if x.result.Some? then OnlyRemoves(s, s', id) && r == HandOut(id, x.result.value)
      else s' == s && r == (if x.status == PendingApproval then Refused(Waiting) else Direct(x))
  {
    hide Named, OnlyRemoves;
    FindIffNamed(s, key, id);
    assert id in s.sessions;
    IdsAgree(s, id);
    RemovedOnly(s, id);
  }

  /** A key of no session is refused and changes nothing. */
  lemma StrangerAnswers(s: Store, key: Key, now: Time, user: nat, device: Device, approved: bool, result: Tokens)
    requires Inverse(s) && forall id :: id in s.sessions ==> s.sessions[id].code != key && s.sessions[id].token != key
    ensures Claim(s, key, now, device) == (s, Err(Invalid)) && Decide(s, user, key, now, approved) == (s, Err(Invalid))
    ensures Commit(s, key, result) == s && Redeem(s, key, now) == (s, Refused(Invalid))
  {
    FindNoneIff(s, key);
  }

  // Runs of the store

  datatype IndexOp = Insert(sess: Session) | Remove(id: Id) | Sweep(now: Time)

  function IndexedOnce(s: Store, op: IndexOp): Store {
    match op
    case Insert(sess) => Inserted(s, sess)
    case Remove(id) => Removed(s, id)
    case Sweep(now) => Swept(s, now)
  }

  function Indexed(s: Store, ops: seq<IndexOp>): Store {
    if ops == [] then s else IndexedOnce(Indexed(s, ops[..|ops| - 1]), ops[|ops| - 1])
  }

  ghost predicate FreshIds(s: Store, ops: seq<IndexOp>) {
    ops != [] ==>
      var before := Indexed(s, ops[..|ops| - 1]);
      FreshIds(s, ops[..|ops| - 1]) && (ops[|ops| - 1].Insert? ==> ops[|ops| - 1].sess.id !in before.sessions)
  }

  ghost predicate FreshKeys(s: Store, ops: seq<IndexOp>) {
    ops != [] ==>
      var before := Indexed(s, ops[..|ops| - 1]);
      && FreshKeys(s, ops[..|ops| - 1])
      && (ops[|ops| - 1].Insert? ==>
            ops[|ops| - 1].sess.code !in before.codes && ops[|ops| - 1].sess.token !in before.tokens)
  }

  /** Whatever keys collide, no run of inserts with fresh ids, removals and sweeps leaves a dangling entry. */
  lemma {:induction false} RunNeverDangles(s: Store, ops: seq<IndexOp>)
    requires NoDangling(s) && FreshIds(s, ops)
    ensures NoDangling(Indexed(s, ops))
  {
    if ops != [] {
      RunNeverDangles(s, ops[..|ops| - 1]);
      var before := Indexed(s, ops[..|ops| - 1]);
      if ops[|ops| - 1].Sweep? {
        RemovedAllKeeps(before, ExpiredAt(before, ops[|ops| - 1].now));
      }
    }
  }

  /** With distinct keys the three maps stay mutually inverse. */
  lemma {:induction false} RunKeepsInverse(s: Store, ops: seq<IndexOp>)
    requires Inverse(s) && FreshIds(s, ops) && FreshKeys(s, ops)
    ensures Inverse(Indexed(s, ops))
  {
    if ops != [] {
      RunKeepsInverse(s, ops[..|ops| - 1]);
      var before := Indexed(s, ops[..|ops| - 1]);
      if ops[|ops| - 1].Sweep? {
        RemovedAllKeeps(before, ExpiredAt(before, ops[|ops| - 1].now));
      }
    }
  }

  /** The three maps are mutually inverse after every operation of the run. */
  ghost predicate AlwaysInverse(s: Store, ops: seq<IndexOp>) {
    ops != [] ==> AlwaysInverse(s, ops[..|ops| - 1]) && Inverse(Indexed(s, ops))
  }

  /** The maps stay mutually inverse throughout a run iff every session it inserts comes with fresh keys. */
  lemma {:induction false} AlwaysInverseIff(s: Store, ops: seq<IndexOp>)
    requires Inverse(s) && FreshIds(s, ops)
    ensures AlwaysInverse(s, ops) <==> FreshKeys(s, ops)
  {
    hide Inverse, IndexedOnce;
    if ops != [] {
      var front, last := ops[..|ops| - 1], ops[|ops| - 1];
      AlwaysInverseIff(s, front);
      if FreshKeys(s, front) {
        RunKeepsInverse(s, front);
        IndexedKeepsInverse(Indexed(s, front), last);
      }
    }
  }

  lemma IndexedKeepsInverse(s: Store, op: IndexOp)
    requires Inverse(s) && (op.Insert? ==> op.sess.id !in s.sessions)
    ensures Inverse(IndexedOnce(s, op)) <==> (op.Insert? ==> op.sess.code !in s.codes && op.sess.token !in s.tokens)
  {
    match op
    case Insert(sess) =>
      hide Inverse;
      InverseInsertIff(s, sess);
    case Remove(id) =>
    case Sweep(now) =>
      RemovedAllKeeps(s, ExpiredAt(s, now));
  }

  /** Fresh keys are needed: when two sessions draw the same code, removing the first hides the second. */
  lemma CollisionHidesSession(a: Session, b: Session)
    requires a.id != b.id && a.code == b.code && a.token != b.token
    ensures var s := Removed(Inserted(Inserted(EMPTY, a), b), a.id);
      NoDangling(s) && b.id in s.sessions && b.code !in s.codes && !Inverse(s)
  {
  }
}
