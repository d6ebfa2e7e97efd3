/** How many devices a pairing session provides with tokens, over every interleaving.

    An approval and a direct redemption each create a device and its tokens between their two steps, and come back
    to the store with it: the approval to leave the result there, the redemption to remove the session. */
module PairingDevices {
  import opened Wrappers
  import opened Pairing
  import opened PairingRuns

  /** The session for which a step comes back with a new device, if it does. */
  function MadeBy(w: World, step: Step): set<Id> {
    match step
    case CommitStep(call, _) =>
      if call in w.approving && w.approving[call] in w.keyOwner then {w.keyOwner[w.approving[call]]} else {}
    case FinishStep(call) => if call in w.redeeming then {w.redeeming[call]} else {}
    case _ => {}
  }

  /** The number of devices made for a session. */
  function Made(steps: seq<Step>, id: Id): nat {
    if steps == [] then 0
    else
      var front := steps[..|steps| - 1];
      Made(front, id) + if id in MadeBy(Run(front), steps[|steps| - 1]) then 1 else 0
  }

  /** The sessions that are there without a result. */
  function Open(w: World): set<Id> {
    set id | id in w.store.sessions && w.store.sessions[id].result.None?
  }

  /** The sessions a step sweeps away. */
  function SweptBy(w: World, step: Step): set<Id> {
    if step.Create? then ExpiredAt(w.store, step.now) else {}
  }

  /** Sessions that a sweep took away without a result, and for which no call has come back since. */
  function SweptUnused(steps: seq<Step>): set<Id> {
    if steps == [] then {}
    else
      var front, last := steps[..|steps| - 1], steps[|steps| - 1];
      (SweptUnused(front) + (Open(Run(front)) * SweptBy(Run(front), last))) - MadeBy(Run(front), last)
  }

  /** Every call that comes back with a device finds the session there without a result, or a sweep took it away
      like that and no call came back since. */
  predicate EachFirst(steps: seq<Step>) {
    steps != [] ==>
      var front, last := steps[..|steps| - 1], steps[|steps| - 1];
      EachFirst(front) && forall id :: id in MadeBy(Run(front), last) ==>
        id in Open(Run(front)) || id in SweptUnused(front)
  }

  // The keys of live sessions

  /** A key given out for a live session is its code or its token. */
  ghost predicate KeysOk(w: World) {
    forall k :: k in w.keyOwner && w.keyOwner[k] in w.store.sessions ==>
      k == w.store.sessions[w.keyOwner[k]].code || k == w.store.sessions[w.keyOwner[k]].token
  }

  lemma KeysNext(w: World, step: Step)
    requires Inv(w) && Legal(w, step) && KeysOk(w)
    ensures KeysOk(Next(w, step))
  {
    hide Inv, Keeps;
    var w' := Next(w, step);
    SessionsNext(w, step);
    KeyOwners(w, step);
    forall k | k in w'.keyOwner && w'.keyOwner[k] in w'.store.sessions
      ensures k == w'.store.sessions[w'.keyOwner[k]].code || k == w'.store.sessions[w'.keyOwner[k]].token
    {
      KeptKeys(w, step, w'.keyOwner[k]);
    }
  }

  lemma KeptKeys(w: World, step: Step, id: Id)
    requires id in Next(w, step).store.sessions && Keeps(w, step, id)
    ensures var s' := Next(w, step).store.sessions[id];
      if step.Create? && id == step.id then s'.code == step.code && s'.token == step.token
      else id in w.store.sessions && s'.code == w.store.sessions[id].code && s'.token == w.store.sessions[id].token
  {
  }

  lemma KeyOwners(w: World, step: Step)
    requires Inv(w) && Legal(w, step)
    ensures forall k :: k in w.keyOwner ==> w.keyOwner[k] in w.owners
    ensures step.Create? ==> step.id !in w.owners
    ensures Next(w, step).keyOwner ==
      if step.Create? then w.keyOwner[step.code := step.id][step.token := step.id] else w.keyOwner
  {
    hide Inverse, AllJustified, SessionsOk, HandedOk;
  }

  // Open sessions

  /** One step opens the session it creates, and closes those it sweeps or makes a device for. */
  lemma OpenNext(w: World, step: Step)
    requires Inv(w) && Legal(w, step) && KeysOk(w)
    ensures Open(Next(w, step)) ==
      ((Open(w) - SweptBy(w, step)) + (if step.Create? then {step.id} else {})) - MadeBy(w, step)
  {
    match step
    case Create(_, _, _, _, _, _) => CreateOpens(w, step);
    case ClaimStep(_, _, _) => ClaimOpens(w, step);
    case DecideStep(_, _, _, _, _) => DecideOpens(w, step);
    case CommitStep(_, _) => CommitCloses(w, step);
    case RedeemStep(_, _, _) => RedeemOpens(w, step);
    case FinishStep(_) => FinishCloses(w, step);
    case FailStep(_) =>
    case ShowStep(_) => ShowOpens(w, step);
  }

  lemma CreateOpens(w: World, step: Step)
    requires step.Create?
    ensures Open(Next(w, step)) == (Open(w) - ExpiredAt(w.store, step.now)) + {step.id}
  {
    hide ExpiredAt, CodesOf, TokensOf;
    var w' := Next(w, step);
    forall id
      ensures id in Open(w') <==> id in (Open(w) - ExpiredAt(w.store, step.now)) + {step.id}
    {
    }
  }

  lemma ClaimOpens(w: World, step: Step)
    requires Inv(w) && step.ClaimStep?
    ensures Open(Next(w, step)) == Open(w)
  {
    hide Inverse, AllJustified, CallsOk, HandedOk, SessionsOk;
    if Find(w.store, step.key).Some? {
      Found(w, step.key);
    }
  }

  lemma DecideOpens(w: World, step: Step)
    requires step.DecideStep?
    ensures Open(Next(w, step)) == Open(w)
  {
  }

  lemma RedeemOpens(w: World, step: Step)
    requires Inv(w) && step.RedeemStep?
    ensures Open(Next(w, step)) == Open(w)
  {
    hide Inverse, AllJustified, CallsOk, HandedOk, SessionsOk;
    if Find(w.store, step.key).Some? {
      Found(w, step.key);
    }
  }

  lemma ShowOpens(w: World, step: Step)
    requires step.ShowStep?
    ensures Open(Next(w, step)) == Open(w)
  {
  }

  lemma FinishCloses(w: World, step: Step)
    requires step.FinishStep?
    ensures Open(Next(w, step)) == Open(w) - MadeBy(w, step)
  {
  }

  lemma CommitCloses(w: World, step: Step)
    requires Inv(w) && KeysOk(w) && step.CommitStep?
    ensures Open(Next(w, step)) == Open(w) - MadeBy(w, step)
  {
    hide Inverse, AllJustified, CallsOk, HandedOk, SessionsOk;
    if step.call in w.approving {
      var key := w.approving[step.call];
      if Find(w.store, key).Some? {
        Found(w, key);
      }
      if key in w.keyOwner && w.keyOwner[key] in w.store.sessions {
        KeyFinds(w, key);
      }
    }
  }

  /** A key given out for a live session finds it. */
  lemma KeyFinds(w: World, key: Key)
    requires Inv(w) && KeysOk(w) && key in w.keyOwner && w.keyOwner[key] in w.store.sessions
    ensures Find(w.store, key).Some?
  {
    InverseFinds(w.store, w.keyOwner[key], key);
  }

  lemma InverseFinds(s: Store, id: Id, key: Key)
    requires Inverse(s) && id in s.sessions && (key == s.sessions[id].code || key == s.sessions[id].token)
    ensures Find(s, key).Some?
  {
    var sess := s.sessions[id];
    assert sess.code in s.codes && sess.token in s.tokens && s.tokens[sess.token] == id;
    assert key in s.codes ==> s.codes[key] in s.sessions;
  }

  // Counting

  /** What is known of a run: unused sessions are those with no device so far. */
  ghost predicate Counted(steps: seq<Step>) {
    var w, swept := Run(steps), SweptUnused(steps);
    && KeysOk(w) && swept <= w.owners.Keys && swept !! w.store.sessions.Keys
    && (forall id :: id in w.owners ==> UnusedIff(steps, id))
    && (forall id :: id !in w.owners ==> Made(steps, id) == 0)
  }

  ghost predicate UnusedIff(steps: seq<Step>, id: Id) {
    Made(steps, id) == 0 <==> id in Open(Run(steps)) || id in SweptUnused(steps)
  }

  lemma {:induction false} RunCounted(steps: seq<Step>)
    requires LegalRun(steps)
    ensures Counted(steps)
  {
    hide Inv, Next, Legal, KeysOk, MadeBy, Open, ExpiredAt;
    if steps == [] {
      NothingCounted();
    } else {
      var front, last := steps[..|steps| - 1], steps[|steps| - 1];
      var w := Run(front);
      RunKeepsInv(front);
      RunCounted(front);
      KeysNext(w, last);
      OpenNext(w, last);
      SessionsNext(w, last);
      MadeKnown(w, last);
      SweptUnusedNext(front, last);
    }
  }

  lemma NothingCounted()
    ensures Counted([])
  {
  }

  lemma MadeKnown(w: World, step: Step)
    requires Inv(w) && Legal(w, step)
    ensures MadeBy(w, step) <= w.owners.Keys && (step.Create? ==> MadeBy(w, step) == {} && step.id !in w.owners)
    ensures Open(w) <= w.store.sessions.Keys
  {
    hide Inverse, AllJustified, SessionsOk, HandedOk;
  }

  lemma SweptUnusedNext(front: seq<Step>, last: Step)
    requires Inv(Run(front)) && Legal(Run(front), last)
    requires SweptUnused(front) <= Run(front).owners.Keys && SweptUnused(front) !! Run(front).store.sessions.Keys
    ensures var swept' := SweptUnused(front + [last]);
      swept' <= Next(Run(front), last).owners.Keys && swept' !! Next(Run(front), last).store.sessions.Keys
  {
    hide Inv, Next, Legal, MadeBy, ExpiredAt, Run;
    var w := Run(front);
    assert (front + [last])[..|front|] == front;
    SessionsNext(w, last);
    FreshId(w, last);
    forall id | id in Next(w, last).store.sessions
      ensures id !in SweptUnused(front + [last])
    {
      assert Keeps(w, last, id);
    }
  }

  ghost predicate AtMostOne(steps: seq<Step>) {
    forall id :: Made(steps, id) <= 1
  }

  /** Every session makes at most one device iff every call that comes back with one is the first for its session:
      it finds the session there without a result, or swept away like that. */
  lemma {:induction false} AtMostOneDeviceIff(steps: seq<Step>)
    requires LegalRun(steps)
    ensures AtMostOne(steps) <==> EachFirst(steps)
  {
    hide Inv, Next, Legal, Counted, SweptUnused, Open;
    if steps != [] {
      var front, last := steps[..|steps| - 1], steps[|steps| - 1];
      var w := Run(front);
      AtMostOneDeviceIff(front);
      RunKeepsInv(front);
      RunCounted(front);
      assert front + [last] == steps;
      OneMoreMade(front, last);
      UnusedIffNoneMade(front, last);
    }
  }

  lemma UnusedIffNoneMade(front: seq<Step>, last: Step)
    requires Inv(Run(front)) && Legal(Run(front), last) && Counted(front)
    ensures (forall id :: id in MadeBy(Run(front), last) ==> id in Open(Run(front)) || id in SweptUnused(front)) <==>
      (forall id :: id in MadeBy(Run(front), last) ==> Made(front, id) == 0)
  {
    hide Inv, Legal, Counted, SweptUnused, Open, MadeBy, Run;
    MadeKnown(Run(front), last);
    forall id | id in MadeBy(Run(front), last)
      ensures Made(front, id) == 0 <==> id in Open(Run(front)) || id in SweptUnused(front)
    {
      CountedAt(front, id);
    }
  }

  lemma CountedAt(steps: seq<Step>, id: Id)
    requires Counted(steps) && id in Run(steps).owners
    ensures Made(steps, id) == 0 <==> id in Open(Run(steps)) || id in SweptUnused(steps)
  {
    assert UnusedIff(steps, id);
  }

  lemma OneMoreMade(front: seq<Step>, last: Step)
    ensures AtMostOne(front + [last]) <==>
      AtMostOne(front) && forall id :: id in MadeBy(Run(front), last) ==> Made(front, id) == 0
  {
    hide Run, MadeBy;
    var steps := front + [last];
    assert steps[..|front|] == front;
    if AtMostOne(steps) {
      forall id
        ensures Made(front, id) <= 1 && (id in MadeBy(Run(front), last) ==> Made(front, id) == 0)
      {
        assert Made(steps, id) <= 1;
      }
    }
    if AtMostOne(front) && forall id :: id in MadeBy(Run(front), last) ==> Made(front, id) == 0 {
      forall id
        ensures Made(steps, id) <= 1
      {
        assert Made(front, id) <= 1;
      }
    }
  }

  // While sessions outlive the calls that work on them

  /** The sessions that calls in flight work on. */
  function InFlight(w: World): set<Id> {
    (set c | c in w.redeeming :: w.redeeming[c]) +
    (set c | c in w.approving && w.approving[c] in w.keyOwner :: w.keyOwner[w.approving[c]])
  }

  /** No sweep removes a session that a call in flight works on. */
  predicate SweepsSpareInFlight(steps: seq<Step>) {
    steps != [] ==>
      var front, last := steps[..|steps| - 1], steps[|steps| - 1];
      SweepsSpareInFlight(front) && InFlight(Run(front)) !! SweptBy(Run(front), last)
  }

  /** Every call that comes back with a device finds its session there without a result. */
  predicate EachFindsItOpen(steps: seq<Step>) {
    steps != [] ==>
      var front, last := steps[..|steps| - 1], steps[|steps| - 1];
      EachFindsItOpen(front) && forall id :: id in MadeBy(Run(front), last) ==> id in Open(Run(front))
  }

  /** A step puts only live sessions in flight. */
  lemma InFlightNext(w: World, step: Step)
    requires Inv(w) && Legal(w, step)
    ensures InFlight(Next(w, step)) <= InFlight(w) + w.store.sessions.Keys
    ensures MadeBy(w, step) <= InFlight(w)
  {
    hide Inverse, AllJustified, SessionsOk, HandedOk;
    if step.DecideStep? || step.RedeemStep? {
      if Find(w.store, step.key).Some? {
        Found(w, step.key);
      }
    }
  }

  lemma {:induction false} InFlightNotSwept(steps: seq<Step>)
    requires LegalRun(steps) && SweepsSpareInFlight(steps)
    ensures InFlight(Run(steps)) !! SweptUnused(steps)
  {
    hide Inv, Next, Legal, InFlight, MadeBy, Open, SweptBy, Counted;
    if steps == [] {
      StartIsIdle();
    } else {
      var front, last := steps[..|steps| - 1], steps[|steps| - 1];
      RunKeepsInv(front);
      InFlightNotSwept(front);
      RunCounted(front);
      InFlightNext(Run(front), last);
      SweptNotLive(front);
      if last.Create? {
        CreateKeepsInFlight(Run(front), last);
      } else {
        assert SweptBy(Run(front), last) == {} by { NoSweep(Run(front), last); }
      }
    }
  }

  lemma StartIsIdle()
    ensures InFlight(Run([])) == {}
  {
  }

  lemma NoSweep(w: World, step: Step)
    requires !step.Create?
    ensures SweptBy(w, step) == {}
  {
  }

  lemma SweptNotLive(steps: seq<Step>)
    requires Counted(steps)
    ensures SweptUnused(steps) !! Run(steps).store.sessions.Keys
  {
  }

  lemma CreateKeepsInFlight(w: World, step: Step)
    requires Inv(w) && Legal(w, step) && step.Create?
    ensures InFlight(Next(w, step)) == InFlight(w)
  {
    hide Inverse, AllJustified, SessionsOk, HandedOk;
  }

  /** So while no sweep removes a session in the middle of a call, every session makes at most one device iff every
      call that comes back with one finds the session there without a result. */
  lemma AtMostOneDeviceIffOpen(steps: seq<Step>)
    requires LegalRun(steps) && SweepsSpareInFlight(steps)
    ensures AtMostOne(steps) <==> EachFindsItOpen(steps)
  {
    AtMostOneDeviceIff(steps);
    OpenIsFirst(steps);
  }

  lemma {:induction false} OpenIsFirst(steps: seq<Step>)
    requires LegalRun(steps) && SweepsSpareInFlight(steps)
    ensures EachFindsItOpen(steps) <==> EachFirst(steps)
  {
    hide Inv, Next, Legal, InFlight, MadeBy, Open, SweptBy, SweptUnused;
    if steps != [] {
      var front, last := steps[..|steps| - 1], steps[|steps| - 1];
      RunKeepsInv(front);
      OpenIsFirst(front);
      InFlightNotSwept(front);
      InFlightNext(Run(front), last);
    }
  }
}
