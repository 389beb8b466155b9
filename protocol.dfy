/**
  The shared flag table of the elevator monitor (hw5.c) as a pure transition
  system. Every locked region of the passenger and elevator controllers is one
  atomic step on a `State`; every `while (!flag) pthread_cond_wait` loop becomes
  the enabling condition of the step that follows it.
*/
module Protocol {

  /** The value hw5.c stores in serving_elevator for "no elevator". */
  const NoElevator: int := -1

  /** One entry of the Passenger[] table: the floors of the current trip. */
  datatype TripRequest = TripRequest(fromFloor: int, toFloor: int)

  /** The five 0/1 flags of one passenger slot, as booleans, and serving_elevator. */
  datatype Slot = Slot(
    ready: bool,          // passenger_ready_for_pickup
    atPickup: bool,       // elevator_at_pickup
    inElevator: bool,     // passenger_in_elevator
    atDestination: bool,  // elevator_at_destination
    exited: bool,         // passenger_exited_elevator
    serving: int)         // serving_elevator

  /** The whole registry: Passenger[], the flag table and trips_remaining. */
  datatype State = State(requests: seq<TripRequest>, slots: seq<Slot>, tripsRemaining: int)

  /** The four flags that are raised by a single assignment in hw5.c. */
  datatype Flag = AtPickup | InElevator | AtDestination | Exited

  /** What one pass of the elevator's claim scan decides. */
  datatype Outcome =
    | Claimed(pid: nat)  // a ready slot was claimed
    | Wait               // nothing ready, trips remain: block and rescan
    | Finished           // nothing ready, no trips remain: return

  /** The steps of the protocol, one per locked region that changes the table. */
  datatype Step =
    | Publish(passenger: nat, fromFloor: int, toFloor: int)
    | Claim(elevator: nat)
    | ArriveAtPickup(passenger: nat, elevator: nat)
    | Board(passenger: nat)
    | ArriveAtDestination(passenger: nat, elevator: nat)
    | Exit(passenger: nat)

  const ResetSlot: Slot := Slot(false, false, false, false, false, NoElevator)

  predicate Shaped(s: State) {
    |s.requests| == |s.slots|
  }

  /**
    How far the slot's current trip has got: 0 idle, 1 requested, 2 claimed,
    3 elevator at pickup, 4 boarded, 5 elevator at destination, 6 exited.
  */
  function Stage(sl: Slot): nat {
    if sl.exited then 6
    else if sl.atDestination then 5
    else if sl.inElevator then 4
    else if sl.atPickup then 3
    else if sl.serving >= 0 then 2
    else if sl.ready then 1
    else 0
  }

  /**
    The flags of a slot are exactly those of its stage: the ready flag is set
    only while the request waits, every later flag implies the earlier ones,
    and an elevator is recorded exactly from the claim on.
  */
  predicate SlotWellFormed(sl: Slot) {
    var k := Stage(sl);
    && sl.ready == (k == 1)
    && sl.atPickup == (k >= 3)
    && sl.inElevator == (k >= 4)
    && sl.atDestination == (k >= 5)
    && sl.exited == (k >= 6)
    && (if k >= 2 then sl.serving >= 0 else sl.serving == NoElevator)
  }

  predicate WellFormed(s: State) {
    Shaped(s) && forall j | 0 <= j < |s.slots| :: SlotWellFormed(s.slots[j])
  }

  /** A slot whose passenger has no trip in progress. */
  predicate Idle(sl: Slot) {
    Stage(sl) == 0 || Stage(sl) == 6
  }

  /** reset_flags(i). */
  function Reset(s: State, i: nat): (r: State)
    requires i < |s.slots|
    ensures |r.slots| == |s.slots| && Stage(r.slots[i]) == 0 && SlotWellFormed(r.slots[i])
    ensures r.slots[i].serving == NoElevator
    ensures forall j | 0 <= j < |s.slots| && j != i :: r.slots[j] == s.slots[j]
    ensures r.requests == s.requests && r.tripsRemaining == s.tripsRemaining
  {
    s.(slots := s.slots[i := ResetSlot])
  }

  /** The registry after initializer(): zeroed floors, every slot reset. */
  function Initial(passengers: nat, tripsPerPassenger: nat): (r: State)
    ensures WellFormed(r) && |r.slots| == passengers
    ensures forall j | 0 <= j < passengers :: Stage(r.slots[j]) == 0 && r.requests[j] == TripRequest(0, 0)
    ensures r.tripsRemaining == passengers * tripsPerPassenger
  {
    State(seq(passengers, _ => TripRequest(0, 0)), seq(passengers, _ => ResetSlot), passengers * tripsPerPassenger)
  }

  /** The passenger's first locked region: store the floors, reset, raise ready. */
  function PublishRequest(s: State, i: nat, fromFloor: int, toFloor: int): (r: State)
    requires Shaped(s) && i < |s.slots|
    ensures Shaped(r) && |r.slots| == |s.slots|
    ensures r.requests[i] == TripRequest(fromFloor, toFloor)
    ensures Stage(r.slots[i]) == 1 && SlotWellFormed(r.slots[i]) && r.slots[i].serving == NoElevator
    ensures forall j | 0 <= j < |s.slots| && j != i :: r.slots[j] == s.slots[j] && r.requests[j] == s.requests[j]
    ensures r.tripsRemaining == s.tripsRemaining
  {
    var t := Reset(s, i);
    t.(requests := t.requests[i := TripRequest(fromFloor, toFloor)],
       slots := t.slots[i := t.slots[i].(ready := true)])
  }

  /** The lowest index at or after `from` whose ready flag is set, or |slots| if none is. */
  function FirstReady(slots: seq<Slot>, from: nat): (k: nat)
    requires from <= |slots|
    ensures from <= k <= |slots|
    ensures k < |slots| ==> slots[k].ready
    ensures forall j | from <= j < k :: !slots[j].ready
    decreases |slots| - from
  {
    if from == |slots| then from
    else if slots[from].ready then from
    else FirstReady(slots, from + 1)
  }

  predicate NoneReady(slots: seq<Slot>) {
    forall j | 0 <= j < |slots| :: !slots[j].ready
  }

  /** The decision of one pass of the claim scan and the termination check. */
  function Scan(s: State): (r: Outcome)
    ensures r.Claimed? ==>
      r.pid < |s.slots| && s.slots[r.pid].ready && forall j | 0 <= j < r.pid :: !s.slots[j].ready
    ensures r == Finished <==> NoneReady(s.slots) && s.tripsRemaining <= 0
    ensures r == Wait <==> NoneReady(s.slots) && s.tripsRemaining > 0
  {
    var k := FirstReady(s.slots, 0);
    if k < |s.slots| then Claimed(k)
    else if s.tripsRemaining <= 0 then Finished
    else Wait
  }

  /**
    The elevator's scan region: a successful claim clears the ready flag of the
    chosen slot, records the elevator and takes one trip off the counter;
    nothing else changes, and a scan that claims nothing changes nothing.
  */
  function ClaimNext(s: State, elevator: nat): (r: State)
    ensures |r.slots| == |s.slots| && r.requests == s.requests
    ensures Scan(s).Claimed? ==>
      var p := Scan(s).pid;
      && !r.slots[p].ready && r.slots[p].serving == elevator
      && r.slots[p].atPickup == s.slots[p].atPickup
      && r.slots[p].inElevator == s.slots[p].inElevator
      && r.slots[p].atDestination == s.slots[p].atDestination
      && r.slots[p].exited == s.slots[p].exited
      && (forall j | 0 <= j < |s.slots| && j != p :: r.slots[j] == s.slots[j])
      && r.tripsRemaining == s.tripsRemaining - 1
    ensures !Scan(s).Claimed? ==> r == s
  {
    match Scan(s)
    case Claimed(p) =>
      s.(slots := s.slots[p := s.slots[p].(ready := false, serving := elevator)],
         tripsRemaining := s.tripsRemaining - 1)
    case _ => s
  }

  /** Whether flag `f` is set in the slot. */
  predicate Holds(sl: Slot, f: Flag) {
    match f
    case AtPickup => sl.atPickup
    case InElevator => sl.inElevator
    case AtDestination => sl.atDestination
    case Exited => sl.exited
  }

  function Raise(sl: Slot, f: Flag): Slot {
    match f
    case AtPickup => sl.(atPickup := true)
    case InElevator => sl.(inElevator := true)
    case AtDestination => sl.(atDestination := true)
    case Exited => sl.(exited := true)
  }

  /** One of the single-flag announcements of hw5.c lines 76, 87, 150 and 165. */
  function Announce(s: State, i: nat, f: Flag): (r: State)
    requires i < |s.slots|
    ensures |r.slots| == |s.slots| && r.requests == s.requests && r.tripsRemaining == s.tripsRemaining
    ensures Holds(r.slots[i], f)
    ensures forall g: Flag | g != f :: Holds(r.slots[i], g) == Holds(s.slots[i], g)
    ensures r.slots[i].serving == s.slots[i].serving && r.slots[i].ready == s.slots[i].ready
    ensures forall j | 0 <= j < |s.slots| && j != i :: r.slots[j] == s.slots[j]
  {
    s.(slots := s.slots[i := Raise(s.slots[i], f)])
  }

  /**
    When a step may be taken. Each wait loop of hw5.c is the flag it waits
    for; the rest is program order: an elevator announces only for the slot
    it claimed, each flag is raised once per trip, and a passenger publishes
    only once its previous trip is over.
  */
  predicate Enabled(s: State, step: Step) {
    match step
    case Publish(i, _, _) => i < |s.slots| && Idle(s.slots[i])
    case Claim(_) => true
    case ArriveAtPickup(i, e) =>
      i < |s.slots| && s.slots[i].serving == e && !s.slots[i].atPickup
    case Board(i) =>
      i < |s.slots| && s.slots[i].atPickup && !s.slots[i].inElevator
    case ArriveAtDestination(i, e) =>
      i < |s.slots| && s.slots[i].serving == e && s.slots[i].inElevator && !s.slots[i].atDestination
    case Exit(i) =>
      i < |s.slots| && s.slots[i].atDestination && !s.slots[i].exited
  }

  function Apply(s: State, step: Step): (r: State)
    requires Shaped(s) && Enabled(s, step)
    ensures Shaped(r) && |r.slots| == |s.slots|
  {
    match step
    case Publish(i, from, to) => PublishRequest(s, i, from, to)
    case Claim(e) => ClaimNext(s, e)
    case ArriveAtPickup(i, _) => Announce(s, i, AtPickup)
    case Board(i) => Announce(s, i, InElevator)
    case ArriveAtDestination(i, _) => Announce(s, i, AtDestination)
    case Exit(i) => Announce(s, i, Exited)
  }

  /** The slot that a step changes, if any. */
  predicate Touches(s: State, step: Step, j: nat) {
    match step
    case Publish(i, _, _) => j == i
    case Claim(_) => Scan(s) == Claimed(j)
    case ArriveAtPickup(i, _) => j == i
    case Board(i) => j == i
    case ArriveAtDestination(i, _) => j == i
    case Exit(i) => j == i
  }

  function Bit(b: bool): nat {
    if b then 1 else 0
  }

  /** Whether the step is a claim that succeeds. */
  predicate ClaimsSlot(s: State, step: Step) {
    step.Claim? && Scan(s).Claimed?
  }

  /**
    Ordering: every enabled step keeps the table well formed, changes only the
    slot it touches, moves that slot exactly one stage forward (publishing
    restarts an idle slot at stage 1), and takes one trip off the counter
    exactly when it is a successful claim.
  */
  lemma StepAdvancesOneSlot(s: State, step: Step)
    requires WellFormed(s) && Enabled(s, step)
    ensures WellFormed(Apply(s, step))
    ensures forall j | 0 <= j < |s.slots| && !Touches(s, step, j) :: Apply(s, step).slots[j] == s.slots[j]
    ensures forall j | 0 <= j < |s.slots| && Touches(s, step, j) ::
      Stage(Apply(s, step).slots[j]) == if step.Publish? then 1 else Stage(s.slots[j]) + 1
    ensures Apply(s, step).tripsRemaining == s.tripsRemaining - Bit(ClaimsSlot(s, step))
  {
  }

  /** A sequence of steps each enabled in the state the previous one left. */
  predicate EnabledRun(s: State, steps: seq<Step>)
    decreases |steps|
  {
    Shaped(s) && (steps == [] || (Enabled(s, steps[0]) && EnabledRun(Apply(s, steps[0]), steps[1..])))
  }

  function Run(s: State, steps: seq<Step>): (r: State)
    requires EnabledRun(s, steps)
    ensures Shaped(r) && |r.slots| == |s.slots|
    decreases |steps|
  {
    if steps == [] then s else Run(Apply(s, steps[0]), steps[1..])
  }

  /** The slots claimed along a run, in order. */
  function Claims(s: State, steps: seq<Step>): seq<nat>
    requires EnabledRun(s, steps)
    decreases |steps|
  {
    if steps == [] then []
    else
      var rest := Claims(Apply(s, steps[0]), steps[1..]);
      if ClaimsSlot(s, steps[0]) then [Scan(s).pid] + rest else rest
  }

  /** The number of publish steps in a run. */
  function Publishes(steps: seq<Step>): nat {
    if steps == [] then 0 else Bit(steps[0].Publish?) + Publishes(steps[1..])
  }

  /** The number of slots whose ready flag is set. */
  function CountReady(slots: seq<Slot>): nat {
    if slots == [] then 0 else Bit(slots[0].ready) + CountReady(slots[1..])
  }

  lemma {:induction false} CountReadyUpdate(slots: seq<Slot>, i: nat, x: Slot)
    requires i < |slots|
    ensures CountReady(slots[i := x]) == CountReady(slots) - Bit(slots[i].ready) + Bit(x.ready)
  {
    if i == 0 {
      assert slots[i := x][1..] == slots[1..];
    } else {
      assert slots[i := x][1..] == slots[1..][i - 1 := x];
      CountReadyUpdate(slots[1..], i - 1, x);
    }
  }

  /** Every run of enabled steps keeps the table well formed. */
  lemma {:induction false} RunKeepsWellFormed(s: State, steps: seq<Step>)
    requires WellFormed(s) && EnabledRun(s, steps)
    ensures WellFormed(Run(s, steps))
    decreases |steps|
  {
    if steps != [] {
      StepAdvancesOneSlot(s, steps[0]);
      RunKeepsWellFormed(Apply(s, steps[0]), steps[1..]);
    }
  }

  /** The counter is never increased: it drops by exactly one per successful claim. */
  lemma {:induction false} RunCounter(s: State, steps: seq<Step>)
    requires WellFormed(s) && EnabledRun(s, steps)
    ensures Run(s, steps).tripsRemaining == s.tripsRemaining - |Claims(s, steps)|
    decreases |steps|
  {
    if steps != [] {
      StepAdvancesOneSlot(s, steps[0]);
      RunCounter(Apply(s, steps[0]), steps[1..]);
    }
  }

  /** Every claim consumes one published request: pending + claimed == already pending + published. */
  lemma {:induction false} RunConservesRequests(s: State, steps: seq<Step>)
    requires WellFormed(s) && EnabledRun(s, steps)
    ensures CountReady(Run(s, steps).slots) + |Claims(s, steps)| == CountReady(s.slots) + Publishes(steps)
    decreases |steps|
  {
    if steps != [] {
      var step := steps[0];
      var r := Apply(s, step);
      StepAdvancesOneSlot(s, step);
      match step {
      case Publish(i, from, to) =>
        assert r.slots == Reset(s, i).slots[i := ResetSlot.(ready := true)];
        CountReadyUpdate(s.slots, i, ResetSlot);
        CountReadyUpdate(Reset(s, i).slots, i, ResetSlot.(ready := true));
      case Claim(e) =>
        if Scan(s).Claimed? {
          var p := Scan(s).pid;
          CountReadyUpdate(s.slots, p, s.slots[p].(ready := false, serving := e));
        }
      case ArriveAtPickup(i, _) =>
        CountReadyUpdate(s.slots, i, r.slots[i]);
      case Board(i) =>
        CountReadyUpdate(s.slots, i, r.slots[i]);
      case ArriveAtDestination(i, _) =>
        CountReadyUpdate(s.slots, i, r.slots[i]);
      case Exit(i) =>
        CountReadyUpdate(s.slots, i, r.slots[i]);
      }
      RunConservesRequests(r, steps[1..]);
    }
  }

  predicate NoPublishOf(steps: seq<Step>, i: nat) {
    forall k | 0 <= k < |steps| :: !(steps[k].Publish? && steps[k].passenger == i)
  }

  /**
    Exclusivity: once elevator `e` holds slot `i`, until the passenger
    publishes again no other claim selects that slot, serving_elevator
    keeps naming `e`, so the passenger reads the claiming elevator's id, and
    the slot's floors stay those published, so the elevator reads them too.
  */
  lemma {:induction false} ClaimIsExclusive(s: State, steps: seq<Step>, i: nat, e: nat)
    requires WellFormed(s) && EnabledRun(s, steps)
    requires i < |s.slots| && s.slots[i].serving == e
    requires NoPublishOf(steps, i)
    ensures Run(s, steps).slots[i].serving == e
    ensures Run(s, steps).requests[i] == s.requests[i]
    ensures i !in Claims(s, steps)
    decreases |steps|
  {
    if steps != [] {
      var step := steps[0];
      StepAdvancesOneSlot(s, step);
      assert step.Publish? ==> step.passenger != i by {
        assert !(steps[0].Publish? && steps[0].passenger == i);
      }
      assert !s.slots[i].ready;
      assert !Touches(s, step, i) || !step.Claim?;
      assert Apply(s, step).slots[i].serving == e;
      assert Apply(s, step).requests[i] == s.requests[i];
      assert NoPublishOf(steps[1..], i) by {
        forall k | 0 <= k < |steps[1..]| ensures !(steps[1..][k].Publish? && steps[1..][k].passenger == i) {
          assert steps[1..][k] == steps[k + 1];
        }
      }
      ClaimIsExclusive(Apply(s, step), steps[1..], i, e);
    }
  }

  /**
    Accounting from initializer(): the counter equals PASSENGERS *
    TRIPS_PER_PASSENGER minus the requests published so far plus those still
    waiting, so it never goes below zero while at most that many requests are
    published, and an elevator terminates only once that many requests were
    published and every one of them was claimed.
  */
  lemma TripAccounting(passengers: nat, tripsPerPassenger: nat, steps: seq<Step>)
    requires EnabledRun(Initial(passengers, tripsPerPassenger), steps)
    ensures var r := Run(Initial(passengers, tripsPerPassenger), steps);
      r.tripsRemaining == passengers * tripsPerPassenger - Publishes(steps) + CountReady(r.slots)
    ensures Publishes(steps) <= passengers * tripsPerPassenger ==>
      Run(Initial(passengers, tripsPerPassenger), steps).tripsRemaining >= 0
    ensures Scan(Run(Initial(passengers, tripsPerPassenger), steps)) == Finished ==>
      Publishes(steps) >= passengers * tripsPerPassenger
      && |Claims(Initial(passengers, tripsPerPassenger), steps)| == Publishes(steps)
  {
    var s := Initial(passengers, tripsPerPassenger);
    var r := Run(s, steps);
    assert CountReady(s.slots) == 0 by {
      NoneReadyCountsZero(s.slots);
    }
    RunCounter(s, steps);
    RunConservesRequests(s, steps);
    if Scan(r) == Finished {
      assert CountReady(r.slots) == 0 by {
        NoneReadyCountsZero(r.slots);
      }
    }
  }

  lemma {:induction false} NoneReadyCountsZero(slots: seq<Slot>)
    requires NoneReady(slots)
    ensures CountReady(slots) == 0
  {
    if slots != [] {
      NoneReadyCountsZero(slots[1..]);
    }
  }

  /** Runs compose: a run followed by a run from where it ended is one run. */
  lemma {:induction false} RunAppend(s: State, a: seq<Step>, b: seq<Step>)
    requires EnabledRun(s, a) && EnabledRun(Run(s, a), b)
    ensures EnabledRun(s, a + b)
    ensures Run(s, a + b) == Run(Run(s, a), b)
    ensures Claims(s, a + b) == Claims(s, a) + Claims(Run(s, a), b)
    decreases |a|
  {
    if a == [] {
      assert a + b == b;
    } else {
      assert (a + b)[0] == a[0] && (a + b)[1..] == a[1..] + b;
      RunAppend(Apply(s, a[0]), a[1..], b);
    }
  }

  /** The locked regions of one trip, in the order the two controllers reach them. */
  function TripSteps(passenger: nat, elevator: nat, fromFloor: int, toFloor: int): seq<Step> {
    [Publish(passenger, fromFloor, toFloor), Claim(elevator), ArriveAtPickup(passenger, elevator),
     Board(passenger), ArriveAtDestination(passenger, elevator), Exit(passenger)]
  }

  /** The elevator's and the passenger's announcements of one claimed trip, in order. */
  function ServiceSteps(passenger: nat, elevator: nat): seq<Step> {
    [ArriveAtPickup(passenger, elevator), Board(passenger), ArriveAtDestination(passenger, elevator), Exit(passenger)]
  }

  lemma ServiceCompletes(s: State, p: nat, e: nat)
    requires WellFormed(s) && p < |s.slots| && Stage(s.slots[p]) == 2 && s.slots[p].serving == e
    ensures EnabledRun(s, ServiceSteps(p, e))
    ensures Run(s, ServiceSteps(p, e)) == s.(slots := s.slots[p := Slot(false, true, true, true, true, e)])
    ensures Claims(s, ServiceSteps(p, e)) == []
  {
    var steps := ServiceSteps(p, e);
    var sl := s.slots[p];
    var s1 := s.(slots := s.slots[p := sl.(atPickup := true)]);
    var s2 := s.(slots := s.slots[p := sl.(atPickup := true, inElevator := true)]);
    var s3 := s.(slots := s.slots[p := sl.(atPickup := true, inElevator := true, atDestination := true)]);
    var s4 := s.(slots := s.slots[p := Slot(false, true, true, true, true, e)]);
    assert Apply(s, steps[0]) == s1;
    assert Apply(s1, steps[1]) == s2 by { assert s1.slots[p := s1.slots[p].(inElevator := true)] == s2.slots; }
    assert Apply(s2, steps[2]) == s3 by { assert s2.slots[p := s2.slots[p].(atDestination := true)] == s3.slots; }
    assert Apply(s3, steps[3]) == s4 by { assert s3.slots[p := s3.slots[p].(exited := true)] == s4.slots; }
    assert steps[3..][1..] == [];
    assert EnabledRun(s3, steps[3..]) && Run(s3, steps[3..]) == s4 && Claims(s3, steps[3..]) == [];
    assert steps[2..][1..] == steps[3..];
    assert EnabledRun(s2, steps[2..]) && Run(s2, steps[2..]) == s4 && Claims(s2, steps[2..]) == [];
    assert steps[1..][1..] == steps[2..];
    assert EnabledRun(s1, steps[1..]) && Run(s1, steps[1..]) == s4 && Claims(s1, steps[1..]) == [];
  }

  /** A single enabled step is a run that ends where the step leads. */
  lemma SingleStepRun(s: State, step: Step)
    requires Shaped(s) && Enabled(s, step)
    ensures EnabledRun(s, [step]) && Run(s, [step]) == Apply(s, step)
    ensures Claims(s, [step]) == if ClaimsSlot(s, step) then [Scan(s).pid] else []
  {
  }

  /** Publishing into an idle slot stores the floors and leaves ready as the slot's only flag. */
  lemma PublishIntoIdle(s: State, p: nat, fromFloor: int, toFloor: int)
    requires WellFormed(s) && p < |s.slots| && Idle(s.slots[p])
    ensures Enabled(s, Publish(p, fromFloor, toFloor))
    ensures Apply(s, Publish(p, fromFloor, toFloor))
      == s.(requests := s.requests[p := TripRequest(fromFloor, toFloor)],
            slots := s.slots[p := ResetSlot.(ready := true)])
  {
  }

  /** When slot `p` is the only ready one, the scan claims it for the elevator. */
  lemma ClaimLoneRequest(s: State, p: nat, e: nat)
    requires Shaped(s) && p < |s.slots| && s.slots[p].ready
    requires forall j | 0 <= j < |s.slots| && j != p :: !s.slots[j].ready
    ensures Scan(s) == Claimed(p)
    ensures Apply(s, Claim(e))
      == s.(slots := s.slots[p := s.slots[p].(ready := false, serving := e)],
            tripsRemaining := s.tripsRemaining - 1)
  {
  }

  /**
    Publishing a request while no other request waits lets the next scan
    claim exactly that request: the slot ends at stage 2 naming the elevator.
  */
  lemma PublishThenClaim(s: State, p: nat, e: nat, fromFloor: int, toFloor: int)
    requires WellFormed(s) && p < |s.slots| && Idle(s.slots[p]) && NoneReady(s.slots)
    ensures var steps := [Publish(p, fromFloor, toFloor), Claim(e)];
      && EnabledRun(s, steps)
      && Run(s, steps) == s.(requests := s.requests[p := TripRequest(fromFloor, toFloor)],
                             slots := s.slots[p := ResetSlot.(serving := e)],
                             tripsRemaining := s.tripsRemaining - 1)
      && Claims(s, steps) == [p]
  {
    var publish, claim := Publish(p, fromFloor, toFloor), Claim(e);
    PublishIntoIdle(s, p, fromFloor, toFloor);
    var s1 := Apply(s, publish);
    ClaimLoneRequest(s1, p, e);
    assert s1.slots[p := s1.slots[p].(ready := false, serving := e)] == s.slots[p := ResetSlot.(serving := e)];
    SingleStepRun(s, publish);
    SingleStepRun(s1, claim);
    RunAppend(s, [publish], [claim]);
    assert [publish] + [claim] == [Publish(p, fromFloor, toFloor), Claim(e)];
  }

  /**
    A request published while no other request waits is claimed by the
    scanning elevator and served to the end: the slot finishes at stage 6
    naming that elevator, the counter drops by one, and nothing else changes.
  */
  lemma LoneTripCompletes(s: State, p: nat, e: nat, fromFloor: int, toFloor: int)
    requires WellFormed(s) && p < |s.slots| && Idle(s.slots[p]) && NoneReady(s.slots)
    ensures EnabledRun(s, TripSteps(p, e, fromFloor, toFloor))
    ensures var r := Run(s, TripSteps(p, e, fromFloor, toFloor));
      && r.slots == s.slots[p := Slot(false, true, true, true, true, e)]
      && r.requests == s.requests[p := TripRequest(fromFloor, toFloor)]
      && r.tripsRemaining == s.tripsRemaining - 1
    ensures Claims(s, TripSteps(p, e, fromFloor, toFloor)) == [p]
  {
    var head := [Publish(p, fromFloor, toFloor), Claim(e)];
    PublishThenClaim(s, p, e, fromFloor, toFloor);
    var s2 := Run(s, head);
    assert WellFormed(s2) by { RunKeepsWellFormed(s, head); }
    ServiceCompletes(s2, p, e);
    RunAppend(s, head, ServiceSteps(p, e));
    assert head + ServiceSteps(p, e) == TripSteps(p, e, fromFloor, toFloor);
    assert s2.slots[p := Slot(false, true, true, true, true, e)] == s.slots[p := Slot(false, true, true, true, true, e)];
  }

  /**
    One passenger, one elevator, two trips per passenger (0 to 5, then 5 to
    2): both requests are claimed by the elevator, the counter ends at zero,
    and the elevator's next scan decides to return.
  */
  lemma TwoTripScenario()
    ensures var steps := TripSteps(0, 0, 0, 5) + TripSteps(0, 0, 5, 2);
      && EnabledRun(Initial(1, 2), steps)
      && Claims(Initial(1, 2), steps) == [0, 0]
      && Run(Initial(1, 2), steps).tripsRemaining == 0
      && Scan(Run(Initial(1, 2), steps)) == Finished
  {
    var s := Initial(1, 2);
    LoneTripCompletes(s, 0, 0, 0, 5);
    var m := Run(s, TripSteps(0, 0, 0, 5));
    LoneTripCompletes(m, 0, 0, 5, 2);
    RunAppend(s, TripSteps(0, 0, 0, 5), TripSteps(0, 0, 5, 2));
  }
}
