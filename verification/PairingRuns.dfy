/** Every interleaving of the pairing steps: what is handed out, when, and how often.

    A call of the approval or of the direct redemption releases the lock in the middle. It is two steps here,
    with any steps of other calls between them, and it may also fail in between. */
module PairingRuns {
  import opened Wrappers
  import opened Pairing

  datatype Event =
    | Passed(id: Id, user: nat)
    | Stored(id: Id, result: Tokens)
    | HandedOut(id: Id, result: Tokens, status: Status)
    | DirectStarted(id: Id, status: Status)
    | Provisioned(id: Id)
    | Shown(id: Id, result: Tokens)

  /** The store, who created which session and key so far, the calls that are between their two steps,
      and what has happened. */
  datatype World = World(store: Store, owners: map<Id, nat>, keyOwner: map<Key, Id>,
                         approving: map<nat, Key>, redeeming: map<nat, Id>, log: seq<Event>)

  const START := World(EMPTY, map[], map[], map[], map[], [])

  datatype Step =
    | Create(id: Id, user: nat, code: Key, token: Key, expires: Time, now: Time)
    | ClaimStep(key: Key, now: Time, device: Device)
    | DecideStep(call: nat, user: nat, key: Key, now: Time, approved: bool)
    | CommitStep(call: nat, result: Tokens)
    | RedeemStep(call: nat, key: Key, now: Time)
    | FinishStep(call: nat)
    | FailStep(call: nat)
    | ShowStep(key: Key)

  function Next(w: World, step: Step): World {
    match step
    case Create(id, user, code, token, expires, now) =>
      var sess := Session(id, user, code, token, expires, PendingRedeem, 0, None, None);
      w.(store := Inserted(Swept(w.store, now), sess), owners := w.owners[id := user],
         keyOwner := w.keyOwner[code := id][token := id])
    case ClaimStep(key, now, device) => w.(store := Claim(w.store, key, now, device).0)
    case DecideStep(call, user, key, now, approved) =>
      var (store', r) := Decide(w.store, user, key, now, approved);
      if approved && r.Ok?
      then w.(store := store', approving := w.approving[call := key], log := w.log + [Passed(r.value, user)])
      else w.(store := store')
    case CommitStep(call, result) =>
      if call !in w.approving then w
      else
        var key := w.approving[call];
        var w' := w.(store := Commit(w.store, key, result), approving := w.approving - {call});
        var found := Find(w.store, key);
        if found.None? then w' else w'.(log := w.log + [Stored(found.value, result)])
    case RedeemStep(call, key, now) =>
      var (store', r) := Redeem(w.store, key, now);
      (match r
       case HandOut(id, result) =>
         w.(store := store', log := w.log + [HandedOut(id, result, w.store.sessions[Find(w.store, key).value].status)])
       case Direct(sess) =>
         w.(redeeming := w.redeeming[call := sess.id], log := w.log + [DirectStarted(sess.id, sess.status)])
       case Refused(_) => w)
    case FinishStep(call) =>
      if call !in w.redeeming then w
      else
        var id := w.redeeming[call];
        w.(store := Removed(w.store, id), redeeming := w.redeeming - {call}, log := w.log + [Provisioned(id)])
    case FailStep(call) => w.(approving := w.approving - {call}, redeeming := w.redeeming - {call})
    case ShowStep(key) =>
      var found := Find(w.store, key);
      if found.None? || w.store.sessions[found.value].result.None? then w
      else w.(log := w.log + [Shown(found.value, w.store.sessions[found.value].result.value)])
  }

  /** Session ids and keys are never reused, and neither are the numbers of calls in flight. */
  predicate Legal(w: World, step: Step) {
    match step
    case Create(id, user, code, token, expires, now) =>
      id !in w.owners && code !in w.keyOwner && token !in w.keyOwner && code != token
    case DecideStep(call, _, _, _, _) => call !in w.approving && call !in w.redeeming
    case RedeemStep(call, _, _) => call !in w.approving && call !in w.redeeming
    case _ => true
  }

  function Run(steps: seq<Step>): World {
    if steps == [] then START else Next(Run(steps[..|steps| - 1]), steps[|steps| - 1])
  }

  predicate LegalRun(steps: seq<Step>) {
    steps != [] ==> LegalRun(steps[..|steps| - 1]) && Legal(Run(steps[..|steps| - 1]), steps[|steps| - 1])
  }

  // Counting and justifying events

  function Handed(log: seq<Event>, id: Id): nat {
    if log == [] then 0
    else
      var e := log[|log| - 1];
      Handed(log[..|log| - 1], id) + if e.HandedOut? && e.id == id then 1 else 0
  }

  /** An event that what came before accounts for. */
  ghost predicate Justified(before: seq<Event>, e: Event, owners: map<Id, nat>) {
    match e
    case Passed(id, user) => id in owners && owners[id] == user
    case Stored(id, result) => id in owners && Passed(id, owners[id]) in before
    case HandedOut(id, result, status) =>
      id in owners && Stored(id, result) in before && Passed(id, owners[id]) in before && status != Rejected
    case DirectStarted(id, status) => id in owners && status == PendingRedeem
    case Provisioned(id) => id in owners && DirectStarted(id, PendingRedeem) in before
    case Shown(id, result) => id in owners && Stored(id, result) in before
  }

  ghost predicate AllJustified(log: seq<Event>, owners: map<Id, nat>) {
    forall i :: 0 <= i < |log| ==> Justified(log[..i], log[i], owners)
  }

  // The invariant

  ghost predicate SessionOk(w: World, id: Id)
    requires id in w.store.sessions
  {
    var sess := w.store.sessions[id];
    && id in w.owners && w.owners[id] == sess.user && sess.failedAttempts == 0
    && sess.code in w.keyOwner && w.keyOwner[sess.code] == id
    && sess.token in w.keyOwner && w.keyOwner[sess.token] == id
    && (sess.result.Some? ==> Stored(id, sess.result.value) in w.log)
    && (sess.status == Approved ==> sess.result.Some?)
  }

  ghost predicate SessionsOk(w: World) {
    forall id :: id in w.store.sessions ==> SessionOk(w, id)
  }

  ghost predicate CallsOk(w: World) {
    && (forall c :: c in w.approving ==> var k := w.approving[c];
          k in w.keyOwner && w.keyOwner[k] in w.owners && Passed(w.keyOwner[k], w.owners[w.keyOwner[k]]) in w.log)
    && (forall c :: c in w.redeeming ==>
          w.redeeming[c] in w.owners && DirectStarted(w.redeeming[c], PendingRedeem) in w.log)
    && (forall k :: k in w.keyOwner ==> w.keyOwner[k] in w.owners)
  }

  ghost predicate HandedOk(w: World) {
    && (forall id :: Handed(w.log, id) <= 1)
    && (forall id :: id in w.store.sessions || id !in w.owners ==> Handed(w.log, id) == 0)
  }

  ghost predicate Inv(w: World) {
    Inverse(w.store) && SessionsOk(w) && CallsOk(w) && AllJustified(w.log, w.owners) && HandedOk(w)
  }

  /** What the invariant says about the session a key finds. */
  lemma Found(w: World, key: Key)
    requires Inv(w) && Find(w.store, key).Some?
    ensures var id := Find(w.store, key).value;
      && SessionOk(w, id) && w.store.sessions[id].id == id && id in w.owners
      && key in w.keyOwner && w.keyOwner[key] == id && Handed(w.log, id) == 0
  {
    assert SessionOk(w, Find(w.store, key).value);
  }

  lemma JustifiedSnoc(log: seq<Event>, e: Event, owners: map<Id, nat>)
    requires AllJustified(log, owners) && Justified(log, e, owners)
    ensures AllJustified(log + [e], owners)
  {
    var log' := log + [e];
    forall i | 0 <= i < |log'|
      ensures Justified(log'[..i], log'[i], owners)
    {
      assert i < |log| ==> log'[..i] == log[..i];
      assert log'[..|log|] == log;
    }
  }

  lemma JustifiedMoreOwners(log: seq<Event>, owners: map<Id, nat>, id: Id, user: nat)
    requires AllJustified(log, owners) && id !in owners
    ensures AllJustified(log, owners[id := user])
  {
    forall i | 0 <= i < |log|
      ensures Justified(log[..i], log[i], owners[id := user])
    {
      assert Justified(log[..i], log[i], owners);
    }
  }

  lemma JustifiedMember(log: seq<Event>, e: Event, owners: map<Id, nat>)
    requires AllJustified(log, owners) && e in log
    ensures exists i :: 0 <= i < |log| && log[i] == e && Justified(log[..i], e, owners)
  {
  }

  lemma HandedSnoc(log: seq<Event>, e: Event)
    ensures forall id :: Handed(log + [e], id) == Handed(log, id) + if e.HandedOut? && e.id == id then 1 else 0
  {
    assert (log + [e])[..|log|] == log;
  }

  lemma NextKeepsInv(w: World, step: Step)
    requires Inv(w) && Legal(w, step)
    ensures Inv(Next(w, step))
  {
    match step
    case Create(_, _, _, _, _, _) => CreateKeeps(w, step);
    case ClaimStep(key, now, device) => ClaimKeeps(w, step);
    case DecideStep(_, _, _, _, _) => DecideKeeps(w, step);
    case CommitStep(_, _) => CommitKeeps(w, step);
    case RedeemStep(_, _, _) => RedeemKeeps(w, step);
    case FinishStep(_) => FinishKeeps(w, step);
    case FailStep(_) =>
      CallsGrow(w, Next(w, step));
      GrowKeeps(w, Next(w, step));
    case ShowStep(_) => ShowKeeps(w, step);
  }

  lemma CreateKeeps(w: World, step: Step)
    requires Inv(w) && Legal(w, step) && step.Create?
    ensures Inv(Next(w, step))
  {
    hide Inverse, AllJustified, SessionsOk, CallsOk, HandedOk;
    var w1 := w.(store := Swept(w.store, step.now));
    SweepKeeps(w, w1, step.now);
    InsertKeeps(w1, Next(w, step), step);
  }

  lemma SweepKeeps(w: World, w': World, now: Time)
    requires Inv(w) && w' == w.(store := Swept(w.store, now))
    ensures Inv(w')
  {
    hide AllJustified, CallsOk;
    RemovedAllKeeps(w.store, ExpiredAt(w.store, now));
    forall id | id in w'.store.sessions
      ensures SessionOk(w', id)
    {
      assert SessionOk(w, id);
    }
    CallsIgnoreStore(w, w');
  }

  lemma CallsIgnoreStore(w: World, w': World)
    requires CallsOk(w) && w' == w.(store := w'.store)
    ensures CallsOk(w')
  {
  }

  lemma InsertKeeps(w: World, w': World, step: Step)
    requires Inv(w) && Legal(w, step) && step.Create?
    requires var sess := Session(step.id, step.user, step.code, step.token, step.expires, PendingRedeem, 0, None, None);
      w' == w.(store := Inserted(w.store, sess), owners := w.owners[step.id := step.user],
               keyOwner := w.keyOwner[step.code := step.id][step.token := step.id])
    ensures Inv(w')
  {
    hide AllJustified;
    JustifiedMoreOwners(w.log, w.owners, step.id, step.user);
    NewKeysAreFresh(w, step);
    InverseInsert(w.store, w'.store.sessions[step.id]);
    InsertSessionsOk(w, w', step);
    assert HandedOk(w');
    assert CallsOk(w');
  }

  lemma InsertSessionsOk(w: World, w': World, step: Step)
    requires Inv(w) && Legal(w, step) && step.Create?
    requires var sess := Session(step.id, step.user, step.code, step.token, step.expires, PendingRedeem, 0, None, None);
      w' == w.(store := Inserted(w.store, sess), owners := w.owners[step.id := step.user],
               keyOwner := w.keyOwner[step.code := step.id][step.token := step.id])
    ensures SessionsOk(w')
  {
    hide AllJustified, CallsOk, HandedOk, Inverse;
    forall id | id in w'.store.sessions
      ensures SessionOk(w', id)
    {
      if id != step.id {
        assert SessionOk(w, id);
      }
    }
  }

  lemma NewKeysAreFresh(w: World, step: Step)
    requires Inv(w) && Legal(w, step) && step.Create?
    ensures step.id !in w.store.sessions && step.code !in w.store.codes && step.token !in w.store.tokens
  {
    forall id | id in w.store.sessions
      ensures id in w.owners && w.store.sessions[id].code in w.keyOwner && w.store.sessions[id].token in w.keyOwner
    {
      assert SessionOk(w, id);
    }
  }

  /** Assigning fields of a session other than its id, owner and keys. */
  lemma AssignKeeps(w: World, w': World, id: Id, sess: Session)
    requires Inv(w) && id in w.store.sessions && w' == w.(store := Assigned(w.store, id, sess), log := w'.log)
    requires w.log <= w'.log && (forall i :: Handed(w'.log, i) == Handed(w.log, i)) && AllJustified(w'.log, w.owners)
    requires sess.id == id && sess.code == w.store.sessions[id].code && sess.token == w.store.sessions[id].token
    requires SessionOk(w', id)
    ensures Inv(w')
  {
    hide AllJustified, CallsOk;
    CallsGrow(w, w');
    forall i | i in w'.store.sessions
      ensures SessionOk(w', i)
    {
      assert SessionOk(w, i);
    }
  }

  /** A longer log and other calls in flight. */
  lemma GrowKeeps(w: World, w': World)
    requires Inv(w) && w' == w.(log := w'.log, approving := w'.approving, redeeming := w'.redeeming)
    requires w.log <= w'.log && (forall i :: Handed(w'.log, i) == Handed(w.log, i)) && AllJustified(w'.log, w.owners)
    requires CallsOk(w')
    ensures Inv(w')
  {
    hide AllJustified, CallsOk, Inverse;
    forall i | i in w'.store.sessions
      ensures SessionOk(w', i)
    {
      assert SessionOk(w, i);
    }
  }

  lemma CallsGrow(w: World, w': World)
    requires CallsOk(w) && w.log <= w'.log && w'.owners == w.owners && w'.keyOwner == w.keyOwner
    requires w'.approving.Keys <= w.approving.Keys && w'.redeeming.Keys <= w.redeeming.Keys
    requires forall c :: c in w'.approving ==> w'.approving[c] == w.approving[c]
    requires forall c :: c in w'.redeeming ==> w'.redeeming[c] == w.redeeming[c]
    ensures CallsOk(w')
  {
  }

  lemma RemoveKeeps(w: World, w': World, id: Id)
    requires Inv(w) && w' == w.(store := Removed(w.store, id))
    ensures Inv(w')
  {
    hide AllJustified, CallsOk;
    CallsIgnoreStore(w, w');
    forall i | i in w'.store.sessions
      ensures SessionOk(w', i)
    {
      assert SessionOk(w, i);
    }
  }

  /** An event other than a hand-out that what came before accounts for. */
  lemma LogGrows(log: seq<Event>, e: Event, owners: map<Id, nat>)
    requires AllJustified(log, owners) && Justified(log, e, owners) && !e.HandedOut?
    ensures AllJustified(log + [e], owners) && log <= log + [e] && e in log + [e]
    ensures forall i :: Handed(log + [e], i) == Handed(log, i)
  {
    JustifiedSnoc(log, e, owners);
    HandedSnoc(log, e);
  }

  lemma ClaimKeeps(w: World, step: Step)
    requires Inv(w) && step.ClaimStep?
    ensures Inv(Next(w, step))
  {
    hide Inverse, AllJustified, SessionsOk, CallsOk, HandedOk;
    var found := Find(w.store, step.key);
    if found.Some? && !(w.store.sessions[found.value].expires < step.now) {
      var id := found.value;
      Found(w, step.key);
      AssignKeeps(w, Next(w, step), id, Next(w, step).store.sessions[id]);
    }
  }

  lemma DecideKeeps(w: World, step: Step)
    requires Inv(w) && Legal(w, step) && step.DecideStep?
    ensures Inv(Next(w, step))
  {
    hide Inverse, AllJustified, SessionsOk, CallsOk, HandedOk;
    var (store', r) := Decide(w.store, step.user, step.key, step.now, step.approved);
    if r.Ok? {
      Found(w, step.key);
      if step.approved {
        LogGrows(w.log, Passed(r.value, step.user), w.owners);
        ApproveCalls(w, Next(w, step), step.call, step.key);
        GrowKeeps(w, Next(w, step));
      } else {
        AssignKeeps(w, Next(w, step), r.value, store'.sessions[r.value]);
      }
    }
  }

  lemma ApproveCalls(w: World, w': World, call: nat, key: Key)
    requires CallsOk(w) && key in w.keyOwner && w.keyOwner[key] in w.owners
    requires var e := Passed(w.keyOwner[key], w.owners[w.keyOwner[key]]);
      w' == w.(approving := w.approving[call := key], log := w.log + [e])
    ensures CallsOk(w')
  {
    assert Passed(w.keyOwner[key], w.owners[w.keyOwner[key]]) in w'.log;
  }

  lemma CommitKeeps(w: World, step: Step)
    requires Inv(w) && step.CommitStep?
    ensures Inv(Next(w, step))
  {
    hide Inverse, AllJustified, SessionsOk, CallsOk, HandedOk;
    if step.call in w.approving {
      var key := w.approving[step.call];
      var w1 := w.(approving := w.approving - {step.call});
      CallsGrow(w, w1);
      GrowKeeps(w, w1);
      if Find(w.store, key).Some? {
        var id := Find(w.store, key).value;
        Found(w, key);
        PassedBefore(w, step.call);
        LogGrows(w.log, Stored(id, step.result), w.owners);
        AssignKeeps(w1, Next(w, step), id, Next(w, step).store.sessions[id]);
      }
    }
  }

  lemma PassedBefore(w: World, call: nat)
    requires CallsOk(w) && call in w.approving && w.approving[call] in w.keyOwner
    ensures var id := w.keyOwner[w.approving[call]];
      id in w.owners && Passed(id, w.owners[id]) in w.log
  {
  }

  lemma RedeemKeeps(w: World, step: Step)
    requires Inv(w) && Legal(w, step) && step.RedeemStep?
    ensures Inv(Next(w, step))
  {
    hide Inverse, AllJustified, SessionsOk, CallsOk, HandedOk;
    var (store', r) := Redeem(w.store, step.key, step.now);
    if Find(w.store, step.key).Some? {
      Found(w, step.key);
    }
    match r
    case HandOut(id, result) =>
      var e := HandedOut(id, result, w.store.sessions[id].status);
      StoredIsJustified(w, id, result);
      JustifiedSnoc(w.log, e, w.owners);
      RemoveKeeps(w, w.(store := store'), id);
      AppendHandOut(w.(store := store'), Next(w, step), e);
    case Direct(sess) =>
      LogGrows(w.log, DirectStarted(sess.id, sess.status), w.owners);
      DirectCalls(w, Next(w, step), step.call, sess.id);
      GrowKeeps(w, Next(w, step));
    case Refused(_) =>
  }

  lemma StoredIsJustified(w: World, id: Id, result: Tokens)
    requires AllJustified(w.log, w.owners) && Stored(id, result) in w.log
    ensures id in w.owners && Passed(id, w.owners[id]) in w.log
  {
    JustifiedMember(w.log, Stored(id, result), w.owners);
  }

  lemma DirectCalls(w: World, w': World, call: nat, id: Id)
    requires CallsOk(w) && id in w.owners
    requires w' == w.(redeeming := w.redeeming[call := id], log := w.log + [DirectStarted(id, PendingRedeem)])
    ensures CallsOk(w')
  {
    assert DirectStarted(id, PendingRedeem) in w'.log;
  }

  lemma AppendHandOut(w: World, w': World, e: Event)
    requires Inv(w) && e.HandedOut? && e.id !in w.store.sessions && Handed(w.log, e.id) == 0
    requires w' == w.(log := w.log + [e]) && e.id in w.owners && AllJustified(w'.log, w.owners)
    ensures Inv(w')
  {
    hide AllJustified, Inverse, CallsOk;
    HandedSnoc(w.log, e);
    CallsGrow(w, w');
    forall i | i in w'.store.sessions
      ensures SessionOk(w', i)
    {
      assert SessionOk(w, i);
    }
  }

  lemma FinishKeeps(w: World, step: Step)
    requires Inv(w) && step.FinishStep?
    ensures Inv(Next(w, step))
  {
    hide Inverse, AllJustified, SessionsOk, HandedOk;
    if step.call in w.redeeming {
      var id := w.redeeming[step.call];
      LogGrows(w.log, Provisioned(id), w.owners);
      var w1 := w.(store := Removed(w.store, id));
      RemoveKeeps(w, w1, id);
      CallsGrow(w1, Next(w, step));
      GrowKeeps(w1, Next(w, step));
    }
  }

  lemma ShowKeeps(w: World, step: Step)
    requires Inv(w) && step.ShowStep?
    ensures Inv(Next(w, step))
  {
    hide Inverse, AllJustified, SessionsOk, CallsOk, HandedOk;
    var found := Find(w.store, step.key);
    if found.Some? && w.store.sessions[found.value].result.Some? {
      Found(w, step.key);
      LogGrows(w.log, Shown(found.value, w.store.sessions[found.value].result.value), w.owners);
      CallsGrow(w, Next(w, step));
      GrowKeeps(w, Next(w, step));
    }
  }

  lemma {:induction false} RunKeepsInv(steps: seq<Step>)
    requires LegalRun(steps)
    ensures Inv(Run(steps))
  {
    if steps != [] {
      RunKeepsInv(steps[..|steps| - 1]);
      NextKeepsInv(Run(steps[..|steps| - 1]), steps[|steps| - 1]);
    }
  }

  // What the runs guarantee

  /** Before event i the result was stored, and before that an approval passed the check of the session's owner. */
  ghost predicate StoredAfterCheck(w: World, i: nat, id: Id, result: Tokens)
    requires i < |w.log|
  {
    && id in w.owners
    && exists j, k :: 0 <= j < k < i && w.log[j] == Passed(id, w.owners[id]) && w.log[k] == Stored(id, result)
  }

  /** In every interleaving a session's stored result is redeemed at most once; a redeemed result was stored
      before, by an approval that had passed the owner check before that, and not under status rejected. */
  lemma {:induction false} RedeemedAtMostOnceAfterApproval(steps: seq<Step>, id: Id)
    requires LegalRun(steps)
    ensures Handed(Run(steps).log, id) <= 1
    ensures var w := Run(steps);
      forall i :: 0 <= i < |w.log| && w.log[i].HandedOut? && w.log[i].id == id ==>
        w.log[i].status != Rejected && StoredAfterCheck(w, i, id, w.log[i].result)
  {
    RunKeepsInv(steps);
    var w := Run(steps);
    forall i | 0 <= i < |w.log| && w.log[i].HandedOut? && w.log[i].id == id
      ensures w.log[i].status != Rejected && StoredAfterCheck(w, i, id, w.log[i].result)
    {
      assert Justified(w.log[..i], w.log[i], w.owners);
      var k :| 0 <= k < i && w.log[k] == Stored(id, w.log[i].result);
      assert Justified(w.log[..k], w.log[k], w.owners);
      var j :| 0 <= j < k && w.log[j] == Passed(id, w.owners[id]);
    }
  }

  /** An approved session has its result stored, and the direct path starts only from pending_redeem. */
  lemma {:induction false} ApprovedHasResult(steps: seq<Step>, id: Id)
    requires LegalRun(steps) && id in Run(steps).store.sessions
    ensures Run(steps).store.sessions[id].status == Approved ==> Run(steps).store.sessions[id].result.Some?
    ensures forall s :: DirectStarted(id, s) in Run(steps).log ==> s == PendingRedeem
  {
    RunKeepsInv(steps);
    var w := Run(steps);
    assert SessionOk(w, id);
    forall s | DirectStarted(id, s) in w.log
      ensures s == PendingRedeem
    {
      JustifiedMember(w.log, DirectStarted(id, s), w.owners);
    }
  }

  /** Nothing ever counts a failed attempt, so no claim invalidates a session for too many of them. */
  lemma AttemptsAreNeverCounted(steps: seq<Step>, key: Key, now: Time, device: Device)
    requires LegalRun(steps)
    ensures Claim(Run(steps).store, key, now, device).1 != Err(TooManyAttempts)
  {
    RunKeepsInv(steps);
    var w := Run(steps);
    if Find(w.store, key).Some? {
      assert SessionOk(w, Find(w.store, key).value);
    }
  }

  // Sessions come only with their creation

  /** A session a step leaves was there with the same keys and not due for a sweep, or is the one created. */
  ghost predicate Keeps(w: World, step: Step, id: Id)
    requires id in Next(w, step).store.sessions
  {
    var sess' := Next(w, step).store.sessions[id];
    if step.Create? && id == step.id then sess'.code == step.code && sess'.token == step.token && sess'.result.None?
    else
      && id in w.store.sessions && sess'.code == w.store.sessions[id].code && sess'.token == w.store.sessions[id].token
      && (step.Create? ==> id !in ExpiredAt(w.store, step.now))
  }

  lemma SessionsNext(w: World, step: Step)
    requires Inv(w)
    ensures forall id :: id in Next(w, step).store.sessions ==> Keeps(w, step, id)
    ensures Next(w, step).owners.Keys == w.owners.Keys + (if step.Create? then {step.id} else {})
    ensures w.store.sessions.Keys <= w.owners.Keys
  {
    hide Inverse, AllJustified, CallsOk, HandedOk, SessionsOk, Keeps, Claim, Decide, Redeem, Swept, Inserted, Find;
    forall id | id in w.store.sessions
      ensures id in w.owners
    {
      assert SessionOk(w, id) by { SessionIn(w, id); }
    }
    forall id | id in Next(w, step).store.sessions
      ensures Keeps(w, step, id)
    {
      if step.Create? {
        CreateKeepsKeys(w, step, id);
      } else if step.ClaimStep? || step.DecideStep? {
        AssignKeepsKeys(w, step, id);
      } else {
        OtherKeepsKeys(w, step, id);
      }
    }
  }

  lemma CreateKeepsKeys(w: World, step: Step, id: Id)
    requires step.Create? && id in Next(w, step).store.sessions
    ensures Keeps(w, step, id)
  {
    hide ExpiredAt, CodesOf, TokensOf;
  }

  lemma AssignKeepsKeys(w: World, step: Step, id: Id)
    requires (step.ClaimStep? || step.DecideStep?) && id in Next(w, step).store.sessions
    ensures Keeps(w, step, id)
  {
  }

  lemma OtherKeepsKeys(w: World, step: Step, id: Id)
    requires !step.Create? && !step.ClaimStep? && !step.DecideStep? && id in Next(w, step).store.sessions
    ensures Keeps(w, step, id)
  {
    hide Find;
  }

  lemma SessionIn(w: World, id: Id)
    requires SessionsOk(w) && id in w.store.sessions
    ensures SessionOk(w, id)
  {
  }

  // When a rejection holds

  ghost predicate Rejects(w: World, id: Id) {
    id in w.store.sessions && w.store.sessions[id].status == Rejected
  }

  /** A claim of the session in time, or the end of an approval that passed its check, before the rejection or after. */
  predicate Lifts(w: World, step: Step, id: Id) {
    match step
    case ClaimStep(key, now, _) => Find(w.store, key) == Some(id) && now <= w.store.sessions[id].expires
    case CommitStep(call, _) => call in w.approving && Find(w.store, w.approving[call]) == Some(id)
    case _ => false
  }

  /** One step takes the rejection off a session iff it lifts it, and no step hands out a rejected session's result. */
  lemma StepLiftsRejectionIff(w: World, step: Step, id: Id)
    requires Inv(w) && Legal(w, step) && Rejects(w, id)
    ensures var w' := Next(w, step);
      && (id in w'.store.sessions && w'.store.sessions[id].status != Rejected <==> Lifts(w, step, id))
      && Handed(w'.log, id) == Handed(w.log, id)
  {
    hide Inverse, AllJustified, CallsOk, HandedOk, Handed;
    assert SessionOk(w, id);
    HandedNext(w, step);
    match step
    case Create(_, _, _, _, _, _) =>
    case ClaimStep(key, _, _) =>
      if Find(w.store, key).Some? {
        Found(w, key);
      }
    case DecideStep(_, _, key, _, _) =>
    case CommitStep(_, _) =>
    case RedeemStep(_, key, _) =>
      if Find(w.store, key).Some? {
        Found(w, key);
      }
    case FinishStep(_) =>
    case FailStep(_) =>
    case ShowStep(_) =>
  }

  /** The session whose result a step hands out, if it does. */
  function HandsOut(w: World, step: Step): Option<Id> {
    if step.RedeemStep? && Redeem(w.store, step.key, step.now).1.HandOut? then Find(w.store, step.key) else None
  }

  lemma HandedNext(w: World, step: Step)
    requires Inv(w)
    ensures forall id ::
      Handed(Next(w, step).log, id) == Handed(w.log, id) + if HandsOut(w, step) == Some(id) then 1 else 0
  {
    hide Inverse, AllJustified, SessionsOk, CallsOk, HandedOk, Handed;
    var w' := Next(w, step);
    if step.RedeemStep? && Find(w.store, step.key).Some? {
      Found(w, step.key);
    }
    if w'.log != w.log {
      assert w'.log == w.log + [w'.log[|w.log|]];
      HandedSnoc(w.log, w'.log[|w.log|]);
    }
  }

  /** From its n-th step on, the run finds the session rejected or gone. */
  ghost predicate StaysRejected(steps: seq<Step>, n: nat, id: Id) {
    forall m :: n <= m <= |steps| && id in Run(steps[..m]).store.sessions ==> Rejects(Run(steps[..m]), id)
  }

  /** From its n-th step on, no step lifts the rejection. */
  ghost predicate NeverLifted(steps: seq<Step>, n: nat, id: Id) {
    forall m :: n <= m < |steps| ==> !LiftsAt(steps, m, id)
  }

  predicate LiftsAt(steps: seq<Step>, m: nat, id: Id)
    requires m < |steps|
  {
    id in Run(steps[..m]).store.sessions && Lifts(Run(steps[..m]), steps[m], id)
  }

  /** One more step of a run of which the rest is known. */
  lemma FrontOfRun(steps: seq<Step>, n: nat, id: Id)
    requires n < |steps|
    ensures var front, k := steps[..|steps| - 1], |steps| - 1;
      && front[..n] == steps[..n] && Run(steps) == Next(Run(front), steps[k])
      && (StaysRejected(steps, n, id) <==>
            StaysRejected(front, n, id) && (id in Run(steps).store.sessions ==> Rejects(Run(steps), id)))
      && (NeverLifted(steps, n, id) <==>
            NeverLifted(front, n, id) && !(id in Run(front).store.sessions && Lifts(Run(front), steps[k], id)))
  {
    hide Next, Lifts, Rejects;
    var front, k := steps[..|steps| - 1], |steps| - 1;
    assert steps[..|steps|] == steps && steps[..k] == front && front[..k] == front;
    assert forall m :: 0 <= m <= k ==> steps[..m] == front[..m];
    assert forall m :: 0 <= m < k ==> LiftsAt(steps, m, id) == LiftsAt(front, m, id);
    assert LiftsAt(steps, k, id) == (id in Run(front).store.sessions && Lifts(Run(front), steps[k], id));
    assert StaysRejected(steps, n, id) && id in Run(steps[..|steps|]).store.sessions ==> Rejects(Run(steps), id);
  }

  lemma LiveUnhanded(w: World, id: Id)
    requires Inv(w) && id in w.store.sessions
    ensures Handed(w.log, id) == 0 && id in w.owners
  {
    hide Handed, Inverse, AllJustified;
    assert SessionOk(w, id);
  }

  /** A session that is gone does not come back, and nothing is handed out for it. */
  lemma GoneStaysGone(w: World, step: Step, id: Id)
    requires Inv(w) && Legal(w, step) && id in w.owners
    ensures id in Next(w, step).owners
    ensures id !in w.store.sessions ==>
      id !in Next(w, step).store.sessions && Handed(Next(w, step).log, id) == Handed(w.log, id)
  {
    hide Inv, Next, Handed;
    SessionsNext(w, step);
    HandedNext(w, step);
    if id in Next(w, step).store.sessions {
      assert Keeps(w, step, id);
      assert step.Create? ==> step.id != id by { FreshId(w, step); }
    }
  }

  lemma FreshId(w: World, step: Step)
    requires Legal(w, step)
    ensures step.Create? ==> step.id !in w.owners
  {
  }

  /** A rejection stands for the rest of a run iff neither a claim nor the end of an approval of the session
      comes through, and while it stands nothing is handed out for the session. */
  lemma {:induction false} RejectionStandsIff(steps: seq<Step>, n: nat, id: Id)
    requires LegalRun(steps) && n <= |steps| && Rejects(Run(steps[..n]), id)
    ensures StaysRejected(steps, n, id) <==> NeverLifted(steps, n, id)
    ensures StaysRejected(steps, n, id) ==> Handed(Run(steps).log, id) == 0
    ensures id in Run(steps).owners
  {
    hide Inv, Next, Legal, Handed, Lifts, Run, StaysRejected, NeverLifted;
    RunKeepsInv(steps);
    if n == |steps| {
      assert steps[..n] == steps;
      LiveUnhanded(Run(steps), id);
      StandsNow(steps, id);
    } else {
      var front, last := steps[..|steps| - 1], steps[|steps| - 1];
      FrontOfRun(steps, n, id);
      RunKeepsInv(front);
      RejectionStandsIff(front, n, id);
      GoneStaysGone(Run(front), last, id);
      if Rejects(Run(front), id) {
        StepLiftsRejectionIff(Run(front), last, id);
      }
      if StaysRejected(front, n, id) {
        StandsLast(front, n, id);
      }
    }
  }

  lemma StandsNow(steps: seq<Step>, id: Id)
    requires Rejects(Run(steps), id)
    ensures StaysRejected(steps, |steps|, id) && NeverLifted(steps, |steps|, id)
  {
    assert steps[..|steps|] == steps;
  }

  lemma StandsLast(steps: seq<Step>, n: nat, id: Id)
    requires n <= |steps| && StaysRejected(steps, n, id)
    ensures id in Run(steps).store.sessions ==> Rejects(Run(steps), id)
  {
    assert steps[..|steps|] == steps;
  }

  // Runs that show the guarantees cannot be strengthened

  lemma RunSnoc(steps: seq<Step>, step: Step)
    requires LegalRun(steps) && Legal(Run(steps), step)
    ensures LegalRun(steps + [step]) && Run(steps + [step]) == Next(Run(steps), step)
  {
    assert (steps + [step])[..|steps|] == steps;
  }

  /** The status query shows the stored result as often as it is asked, before it is redeemed once. */
  lemma StatusShowsAgain(w: World, key: Key)
    requires Inv(w) && Find(w.store, key).Some? && w.store.sessions[Find(w.store, key).value].result.Some?
    ensures var w' := Next(w, ShowStep(key));
      && Next(w', ShowStep(key)).log == w.log + [w'.log[|w.log|]] + [w'.log[|w.log|]]
      && w'.log[|w.log|].Shown? && w'.store == w.store
  {
  }
}
