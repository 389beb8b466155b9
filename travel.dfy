/**
  move2dest of hw5.c: the calls an elevator makes to the move_elevator
  callback to go from one floor to another, returned as the sequence of
  directions passed (every call also passes the same elevator id).
*/
module Travel {
  import P = Protocol

  /** The direction of every move: +1 when the destination is above, -1 otherwise (ties too). */
  function Direction(source: int, destination: int): int {
    if destination - source > 0 then 1 else -1
  }

  /** The number of floors between the two. */
  function Distance(source: int, destination: int): nat {
    if destination >= source then destination - source else source - destination
  }

  /** The floor change that a sequence of moves adds up to. */
  function Displacement(moves: seq<int>): int {
    if moves == [] then 0 else Displacement(moves[..|moves| - 1]) + moves[|moves| - 1]
  }

  /** The directions move2dest issues, one per floor of distance. */
  function Moves(source: int, destination: int): (r: seq<int>)
    ensures |r| == Distance(source, destination)
    ensures forall k | 0 <= k < |r| :: r[k] == Direction(source, destination)
  {
    seq(Distance(source, destination), _ => Direction(source, destination))
  }

  /**
    hw5.c move2dest: picks the direction and the step count from the sign and
    size of destination - source, then issues one move per remaining step.
  */
  method Move2Dest(source: int, destination: int) returns (moves: seq<int>)
    ensures moves == Moves(source, destination)
    ensures source + Displacement(moves) == destination
  {
    var direction: int, steps: int;
    var distance := destination - source;
    if distance > 0 {
      direction := 1;
      steps := distance;
    } else {
      direction := -1;
      steps := -1 * distance;
    }
    moves := [];
    while steps > 0
      invariant 0 <= steps
      invariant |moves| + steps == Distance(source, destination)
      invariant forall k | 0 <= k < |moves| :: moves[k] == direction
      invariant source + Displacement(moves) + direction * steps == destination
    {
      assert (moves + [direction])[..|moves|] == moves;
      moves := moves + [direction];
      steps := steps - 1;
    }
  }

  lemma {:induction false} DisplacementAppend(a: seq<int>, b: seq<int>)
    ensures Displacement(a + b) == Displacement(a) + Displacement(b)
    decreases |b|
  {
    if b != [] {
      var b' := b[..|b| - 1];
      assert (a + b)[..|a + b| - 1] == a + b';
      DisplacementAppend(a, b');
    } else {
      assert a + b == a;
    }
  }

  /** The moves of move2dest bring the elevator exactly to the destination. */
  lemma {:induction false} MovesReachDestination(source: int, destination: int)
    ensures source + Displacement(Moves(source, destination)) == destination
  {
    var d := Direction(source, destination);
    var n := Distance(source, destination);
    UniformDisplacement(n, d);
  }

  lemma {:induction false} UniformDisplacement(n: nat, d: int)
    ensures Displacement(seq(n, _ => d)) == n * d
  {
    if n > 0 {
      assert seq(n, _ => d)[..n - 1] == seq(n - 1, _ => d);
      UniformDisplacement(n - 1, d);
    }
  }

  /**
    One trip of elevator_controller: from its floor to the pickup floor, then
    to the destination floor. The elevator ends at the destination after
    exactly as many moves as the two legs are long.
  */
  lemma ServiceRoute(atFloor: int, fromFloor: int, toFloor: int)
    ensures var route := Moves(atFloor, fromFloor) + Moves(fromFloor, toFloor);
      && |route| == Distance(atFloor, fromFloor) + Distance(fromFloor, toFloor)
      && atFloor + Displacement(route) == toFloor
  {
    DisplacementAppend(Moves(atFloor, fromFloor), Moves(fromFloor, toFloor));
    MovesReachDestination(atFloor, fromFloor);
    MovesReachDestination(fromFloor, toFloor);
  }

  /**
    The route of a claimed trip as hw5.c lines 145 and 160 drive it: whatever
    other steps run between the claim and the moment the elevator reads
    Passenger[pid], as long as that passenger does not publish again, the
    floors read are the ones published, and the route from the elevator's
    floor ends at the published destination.
  */
  lemma ClaimedTripRoute(s: P.State, steps: seq<P.Step>, pid: nat, elevator: nat, atFloor: int)
    requires P.WellFormed(s) && P.EnabledRun(s, steps)
    requires pid < |s.slots| && s.slots[pid].serving == elevator
    requires P.NoPublishOf(steps, pid)
    ensures var req := P.Run(s, steps).requests[pid];
      && req == s.requests[pid]
      && atFloor + Displacement(Moves(atFloor, req.fromFloor) + Moves(req.fromFloor, req.toFloor)) == s.requests[pid].toFloor
  {
    P.ClaimIsExclusive(s, steps, pid, elevator);
    var req := P.Run(s, steps).requests[pid];
    ServiceRoute(atFloor, req.fromFloor, req.toFloor);
  }
}
