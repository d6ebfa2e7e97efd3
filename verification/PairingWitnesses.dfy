/** Runs of the pairing steps that show where the guarantees end. */
module PairingWitnesses {
  import opened Wrappers
  import opened Pairing
  import opened PairingRuns
  import opened PairingDevices

  /** One session, with a code and a token, until it is removed; the calls in flight; what has happened; and the
      number of devices made. */
  datatype Point = Point(session: Option<Session>, approving: map<nat, Key>, redeeming: map<nat, Id>,
                         log: seq<Event>, made: nat)

  function WorldOf(p: Point): World {
    var store := match p.session
      case Some(sess) => Store(map[1 := sess], map["123456" := 1], map["tok" := 1])
      case None => EMPTY;
    World(store, map[1 := 7], map["123456" := 1, "tok" := 1], p.approving, p.redeeming, p.log)
  }

  ghost predicate At(steps: seq<Step>, p: Point) {
    LegalRun(steps) && Run(steps) == WorldOf(p) && Made(steps, 1) == p.made
  }

  lemma StepAt(steps: seq<Step>, p: Point, step: Step, p': Point)
    requires At(steps, p) && Legal(WorldOf(p), step) && Next(WorldOf(p), step) == WorldOf(p')
    requires p'.made == p.made + if 1 in MadeBy(WorldOf(p), step) then 1 else 0
    ensures At(steps + [step], p')
  {
    hide Next, WorldOf;
    assert (steps + [step])[..|steps|] == steps;
  }

  lemma AtMade(steps: seq<Step>, p: Point)
    requires At(steps, p)
    ensures LegalRun(steps) && Made(steps, 1) == p.made && Run(steps).log == p.log
  {
  }

  // The steps, while the session is there

  predicate Ours(p: Point) {
    p.session.Some? &&
    var sess := p.session.value;
    sess.id == 1 && sess.user == 7 && sess.code == "123456" && sess.token == "tok" && sess.expires == 300
      && sess.failedAttempts == 0
  }

  predicate Free(p: Point, call: nat) {
    call !in p.approving && call !in p.redeeming
  }

  function Claimed(p: Point): Point
    requires Ours(p)
  {
    p.(session := Some(p.session.value.(candidate := Some(5), status := PendingApproval)))
  }

  lemma ClaimAt(steps: seq<Step>, p: Point, now: Time)
    requires At(steps, p) && Ours(p) && now <= 300
    ensures At(steps + [ClaimStep("tok", now, 5)], Claimed(p))
  {
    hide At;
    StepAt(steps, p, ClaimStep("tok", now, 5), Claimed(p));
  }

  function PassedOn(p: Point, call: nat): Point {
    p.(approving := p.approving[call := "tok"], log := p.log + [Passed(1, 7)])
  }

  lemma PassAt(steps: seq<Step>, p: Point, call: nat, now: Time)
    requires At(steps, p) && Ours(p) && now <= 300 && p.session.value.candidate.Some? && Free(p, call)
    ensures At(steps + [DecideStep(call, 7, "tok", now, true)], PassedOn(p, call))
  {
    hide At;
    StepAt(steps, p, DecideStep(call, 7, "tok", now, true), PassedOn(p, call));
  }

  function Refused(p: Point): Point
    requires Ours(p)
  {
    p.(session := Some(p.session.value.(status := Rejected)))
  }

  lemma RejectAt(steps: seq<Step>, p: Point, call: nat, now: Time)
    requires At(steps, p) && Ours(p) && now <= 300 && Free(p, call)
    ensures At(steps + [DecideStep(call, 7, "tok", now, false)], Refused(p))
  {
    hide At;
    StepAt(steps, p, DecideStep(call, 7, "tok", now, false), Refused(p));
  }

  function Approves(p: Point, call: nat, result: Tokens): Point
    requires Ours(p)
  {
    p.(session := Some(p.session.value.(status := Approved, result := Some(result))), approving := p.approving - {call},
       log := p.log + [Stored(1, result)], made := p.made + 1)
  }

  lemma CommitAt(steps: seq<Step>, p: Point, call: nat, result: Tokens)
    requires At(steps, p) && Ours(p) && call in p.approving && p.approving[call] == "tok"
    ensures At(steps + [CommitStep(call, result)], Approves(p, call, result))
  {
    hide At;
    StepAt(steps, p, CommitStep(call, result), Approves(p, call, result));
  }

  function HandsOver(p: Point): Point
    requires Ours(p) && p.session.value.result.Some?
  {
    p.(session := None, log := p.log + [HandedOut(1, p.session.value.result.value, p.session.value.status)])
  }

  lemma HandOutAt(steps: seq<Step>, p: Point, call: nat, now: Time)
    requires At(steps, p) && Ours(p) && now <= 300 && Free(p, call)
    requires p.session.value.result.Some? && p.session.value.status != Rejected
    ensures At(steps + [RedeemStep(call, "tok", now)], HandsOver(p))
  {
    hide At;
    StepAt(steps, p, RedeemStep(call, "tok", now), HandsOver(p));
  }

  function Starts(p: Point, call: nat): Point {
    p.(redeeming := p.redeeming[call := 1], log := p.log + [DirectStarted(1, PendingRedeem)])
  }

  lemma StartAt(steps: seq<Step>, p: Point, call: nat, now: Time)
    requires At(steps, p) && Ours(p) && now <= 300 && Free(p, call)
    requires p.session.value.result.None? && p.session.value.status == PendingRedeem
    ensures At(steps + [RedeemStep(call, "tok", now)], Starts(p, call))
  {
    hide At;
    StepAt(steps, p, RedeemStep(call, "tok", now), Starts(p, call));
  }

  function Finishes(p: Point, call: nat): Point {
    p.(session := None, redeeming := p.redeeming - {call}, log := p.log + [Provisioned(1)], made := p.made + 1)
  }

  lemma FinishAt(steps: seq<Step>, p: Point, call: nat)
    requires At(steps, p) && (p.session.None? || Ours(p)) && call in p.redeeming && p.redeeming[call] == 1
    ensures At(steps + [FinishStep(call)], Finishes(p, call))
  {
    hide At;
    StepAt(steps, p, FinishStep(call), Finishes(p, call));
  }

  function Shows(p: Point): Point
    requires Ours(p) && p.session.value.result.Some?
  {
    p.(log := p.log + [Shown(1, p.session.value.result.value)])
  }

  lemma ShowAt(steps: seq<Step>, p: Point)
    requires At(steps, p) && Ours(p) && p.session.value.result.Some?
    ensures At(steps + [ShowStep("tok")], Shows(p))
  {
    hide At;
    StepAt(steps, p, ShowStep("tok"), Shows(p));
  }

  const OPENING := [Create(1, 7, "123456", "tok", 300, 0)]
  const FRESH := Point(Some(Session(1, 7, "123456", "tok", 300, PendingRedeem, 0, None, None)), map[], map[], [], 0)

  lemma Opened()
    ensures At(OPENING, FRESH)
  {
    var w := Run(OPENING);
    assert OPENING[..0] == [] && "123456" != "tok";
    assert ExpiredAt(EMPTY, 0) == {};
    assert Swept(EMPTY, 0) == EMPTY;
    assert w.keyOwner == map["123456" := 1, "tok" := 1];
    assert MadeBy(START, OPENING[0]) == {};
    assert Made([], 1) == 0;
  }

  const PASSED := OPENING + [ClaimStep("tok", 1, 5)] + [DecideStep(1, 7, "tok", 2, true)]
  const APPROVED := PASSED + [CommitStep(1, 9)]
  const REJECTED := APPROVED + [DecideStep(2, 7, "tok", 3, false)]

  const P2 := PassedOn(Claimed(FRESH), 1)
  const P3 := Approves(P2, 1, 9)

  lemma AfterPass()
    ensures At(PASSED, P2)
  {
    hide At;
    Opened();
    ClaimAt(OPENING, FRESH, 1);
    PassAt(OPENING + [ClaimStep("tok", 1, 5)], Claimed(FRESH), 1, 2);
  }

  lemma AfterApproval()
    ensures At(APPROVED, P3)
  {
    hide At;
    AfterPass();
    CommitAt(PASSED, P2, 1, 9);
  }

  lemma AfterRejection()
    ensures At(REJECTED, Refused(P3))
  {
    hide At;
    AfterApproval();
    RejectAt(APPROVED, P3, 2, 3);
  }

  // More than one device for a session

  /** Two direct redemptions that overlap both succeed: one pairing code, two devices. */
  lemma OverlappingRedemptionsMakeTwo()
    ensures var steps := OPENING + [RedeemStep(1, "tok", 1)] + [RedeemStep(2, "tok", 1)] + [FinishStep(1)]
      + [FinishStep(2)];
      LegalRun(steps) && Made(steps, 1) == 2
  {
    hide At, LegalRun, Made, Run;
    var s1 := OPENING + [RedeemStep(1, "tok", 1)];
    var s2 := s1 + [RedeemStep(2, "tok", 1)];
    var s3 := s2 + [FinishStep(1)];
    var p2 := Starts(Starts(FRESH, 1), 2);
    Opened();
    StartAt(OPENING, FRESH, 1, 1);
    StartAt(s1, Starts(FRESH, 1), 2, 1);
    FinishAt(s2, p2, 1);
    FinishAt(s3, Finishes(p2, 1), 2);
    AtMade(s3 + [FinishStep(2)], Finishes(Finishes(p2, 1), 2));
  }

  /** Two approvals make two devices, without any direct redemption: the status query gives away the first one's
      tokens, the redemption those of the second. */
  lemma TwoApprovalsMakeTwo()
    ensures var steps := APPROVED + [ShowStep("tok")] + [DecideStep(2, 7, "tok", 3, true)] + [CommitStep(2, 10)]
      + [RedeemStep(3, "tok", 4)];
      && LegalRun(steps) && Made(steps, 1) == 2
      && Run(steps).log == [Passed(1, 7), Stored(1, 9), Shown(1, 9), Passed(1, 7), Stored(1, 10),
                            HandedOut(1, 10, Approved)]
  {
    hide At, LegalRun, Made, Run;
    var s1 := APPROVED + [ShowStep("tok")];
    var s2 := s1 + [DecideStep(2, 7, "tok", 3, true)];
    var s3 := s2 + [CommitStep(2, 10)];
    var p1 := Shows(P3);
    var p3 := Approves(PassedOn(p1, 2), 2, 10);
    AfterApproval();
    ShowAt(APPROVED, P3);
    PassAt(s1, p1, 2, 3);
    CommitAt(s2, PassedOn(p1, 2), 2, 10);
    HandOutAt(s3, p3, 3, 4);
    AtMade(s3 + [RedeemStep(3, "tok", 4)], HandsOver(p3));
  }

  /** A direct redemption in flight beside an approval makes a second device, though it finds its session there. */
  lemma RedemptionBesideApprovalMakesTwo()
    ensures var steps := OPENING + [RedeemStep(4, "tok", 1)] + [ClaimStep("tok", 1, 5)]
      + [DecideStep(1, 7, "tok", 2, true)]
                         + [CommitStep(1, 9)] + [ShowStep("tok")] + [FinishStep(4)];
      && LegalRun(steps) && Made(steps, 1) == 2
      && Run(steps).log == [DirectStarted(1, PendingRedeem), Passed(1, 7), Stored(1, 9), Shown(1, 9), Provisioned(1)]
  {
    hide At, LegalRun, Made, Run;
    var s1 := OPENING + [RedeemStep(4, "tok", 1)];
    var s2 := s1 + [ClaimStep("tok", 1, 5)];
    var s3 := s2 + [DecideStep(1, 7, "tok", 2, true)];
    var s4 := s3 + [CommitStep(1, 9)];
    var s5 := s4 + [ShowStep("tok")];
    var p2 := Claimed(Starts(FRESH, 4));
    var p4 := Approves(PassedOn(p2, 1), 1, 9);
    Opened();
    StartAt(OPENING, FRESH, 4, 1);
    ClaimAt(s1, Starts(FRESH, 4), 1);
    PassAt(s2, p2, 1, 2);
    CommitAt(s3, PassedOn(p2, 1), 1, 9);
    ShowAt(s4, p4);
    FinishAt(s5, Shows(p4), 4);
    AtMade(s5 + [FinishStep(4)], Finishes(Shows(p4), 4));
  }

  // Rejections that do not last

  /** A rejection is lifted by a claim: the device claims again and redeems the result stored before. */
  lemma ClaimUndoesRejection()
    ensures var steps := REJECTED + [ClaimStep("tok", 4, 5)] + [RedeemStep(3, "tok", 5)];
      LegalRun(steps) && Run(steps).log == [Passed(1, 7), Stored(1, 9), HandedOut(1, 9, PendingApproval)]
  {
    hide At, LegalRun, Made, Run;
    var s1 := REJECTED + [ClaimStep("tok", 4, 5)];
    AfterRejection();
    ClaimAt(REJECTED, Refused(P3), 4);
    HandOutAt(s1, Claimed(Refused(P3)), 3, 5);
    AtMade(s1 + [RedeemStep(3, "tok", 5)], HandsOver(Claimed(Refused(P3))));
  }

  /** A rejection is lifted by an approval that passed its check before it and commits after it. */
  lemma PendingApprovalUndoesRejection()
    ensures var steps := PASSED + [DecideStep(2, 7, "tok", 3, false)] + [CommitStep(1, 9)] + [RedeemStep(3, "tok", 5)];
      LegalRun(steps) && Run(steps).log == [Passed(1, 7), Stored(1, 9), HandedOut(1, 9, Approved)]
  {
    hide At, LegalRun, Made, Run;
    var s1 := PASSED + [DecideStep(2, 7, "tok", 3, false)];
    var s2 := s1 + [CommitStep(1, 9)];
    var p2 := Approves(Refused(P2), 1, 9);
    AfterPass();
    RejectAt(PASSED, P2, 2, 3);
    CommitAt(s1, Refused(P2), 1, 9);
    HandOutAt(s2, p2, 3, 5);
    AtMade(s2 + [RedeemStep(3, "tok", 5)], HandsOver(p2));
  }

  /** And by an approval made after it: the owner changes the decision, and a second device is made. */
  lemma LaterApprovalUndoesRejection()
    ensures var steps := REJECTED + [DecideStep(3, 7, "tok", 4, true)] + [CommitStep(3, 10)]
      + [RedeemStep(4, "tok", 5)];
      && LegalRun(steps) && Made(steps, 1) == 2
      && Run(steps).log == [Passed(1, 7), Stored(1, 9), Passed(1, 7), Stored(1, 10), HandedOut(1, 10, Approved)]
  {
    hide At, LegalRun, Made, Run;
    var s1 := REJECTED + [DecideStep(3, 7, "tok", 4, true)];
    var s2 := s1 + [CommitStep(3, 10)];
    var p1 := PassedOn(Refused(P3), 3);
    AfterRejection();
    PassAt(REJECTED, Refused(P3), 3, 4);
    CommitAt(s1, p1, 3, 10);
    HandOutAt(s2, Approves(p1, 3, 10), 4, 5);
    AtMade(s2 + [RedeemStep(4, "tok", 5)], HandsOver(Approves(p1, 3, 10)));
  }
}
