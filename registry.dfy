/**
  The global arrays of hw5.c as one object, and each locked region of the
  passenger and elevator controllers as a method that updates them in place.
  Every locked region is specified by the Protocol step it performs on the
  abstract table and keeps the table well formed. Initializer runs before any
  thread starts; AwaitPickup and ClaimedFloors only read.
*/
module Registry {
  import P = Protocol

  class Registry {
    const passengers: nat          // PASSENGERS
    const tripsPerPassenger: nat   // TRIPS_PER_PASSENGER

    const requests: array<P.TripRequest>   // Passenger[]
    const readyForPickup: array<bool>      // passenger_ready_for_pickup
    const inElevator: array<bool>          // passenger_in_elevator
    const exitedElevator: array<bool>      // passenger_exited_elevator
    const atPickup: array<bool>            // elevator_at_pickup
    const atDestination: array<bool>       // elevator_at_destination
    const servingElevator: array<int>      // serving_elevator
    var tripsRemaining: int                // trips_remaining

    /** Every array has one entry per passenger, and the five flag arrays are distinct. */
    ghost predicate Valid() {
      && requests.Length == passengers
      && readyForPickup.Length == passengers
      && inElevator.Length == passengers
      && exitedElevator.Length == passengers
      && atPickup.Length == passengers
      && atDestination.Length == passengers
      && servingElevator.Length == passengers
      && readyForPickup != inElevator && readyForPickup != exitedElevator
      && readyForPickup != atPickup && readyForPickup != atDestination
      && inElevator != exitedElevator && inElevator != atPickup && inElevator != atDestination
      && exitedElevator != atPickup && exitedElevator != atDestination
      && atPickup != atDestination
    }

    /** The flag table, slot by slot. */
    ghost function Slots(): seq<P.Slot>
      reads readyForPickup, inElevator, exitedElevator, atPickup, atDestination, servingElevator
      requires Valid()
    {
      var ready, pickup, boarded := readyForPickup[..], atPickup[..], inElevator[..];
      var arrived, exited, serving := atDestination[..], exitedElevator[..], servingElevator[..];
      seq(passengers, j requires 0 <= j < passengers =>
        P.Slot(ready[j], pickup[j], boarded[j], arrived[j], exited[j], serving[j]))
    }

    /** The registry as a Protocol state. */
    ghost function Abstract(): P.State
      reads this, requests, readyForPickup, inElevator, exitedElevator, atPickup, atDestination, servingElevator
      requires Valid()
    {
      P.State(requests[..], Slots(), tripsRemaining)
    }

    /** The protocol invariant: the flags of every slot are those of its stage. */
    ghost predicate Consistent()
      reads this, requests, readyForPickup, inElevator, exitedElevator, atPickup, atDestination, servingElevator
    {
      Valid() && P.WellFormed(Abstract())
    }

    /** The static storage of hw5.c before initializer() runs: all zero. */
    constructor (passengers: nat, tripsPerPassenger: nat)
      requires passengers > 0 && tripsPerPassenger > 0
      ensures Valid() && this.passengers == passengers && this.tripsPerPassenger == tripsPerPassenger
      ensures fresh(requests) && fresh(readyForPickup) && fresh(inElevator) && fresh(exitedElevator)
      ensures fresh(atPickup) && fresh(atDestination) && fresh(servingElevator)
      ensures Abstract() == P.State(seq(passengers, _ => P.TripRequest(0, 0)),
                                    seq(passengers, _ => P.Slot(false, false, false, false, false, 0)), 0)
      ensures Consistent()
    {
      this.passengers := passengers;
      this.tripsPerPassenger := tripsPerPassenger;
      requests := new P.TripRequest[passengers](_ => P.TripRequest(0, 0));
      readyForPickup := new bool[passengers](_ => false);
      inElevator := new bool[passengers](_ => false);
      exitedElevator := new bool[passengers](_ => false);
      atPickup := new bool[passengers](_ => false);
      atDestination := new bool[passengers](_ => false);
      servingElevator := new int[passengers](_ => 0);
      tripsRemaining := 0;
      new;
      assert Slots() == seq(passengers, _ => P.Slot(false, false, false, false, false, 0));
    }

    /** reset_flags(i): clear the five flags of slot i and forget its elevator. */
    method ResetFlags(i: nat)
      requires Valid() && i < passengers
      modifies readyForPickup, inElevator, exitedElevator, atPickup, atDestination, servingElevator
      ensures Abstract() == P.Reset(old(Abstract()), i)
    {
      readyForPickup[i] := false;
      inElevator[i] := false;
      exitedElevator[i] := false;
      atPickup[i] := false;
      atDestination[i] := false;
      servingElevator[i] := P.NoElevator;
    }

    /** initializer(): zero the floors, reset every slot, set the trip counter. */
    method Initializer()
      requires Valid()
      modifies this, requests, readyForPickup, inElevator, exitedElevator, atPickup, atDestination, servingElevator
      ensures Abstract() == P.Initial(passengers, tripsPerPassenger)
      ensures Consistent()
    {
      forall j | 0 <= j < passengers {
        requests[j] := P.TripRequest(0, 0);
      }
      for i := 0 to passengers
        invariant requests[..] == P.Initial(passengers, tripsPerPassenger).requests
        invariant forall j | 0 <= j < i :: Slots()[j] == P.ResetSlot
      {
        ResetFlags(i);
      }
      assert Slots() == P.Initial(passengers, tripsPerPassenger).slots;
      tripsRemaining := passengers * tripsPerPassenger;
    }

    /**
      The passenger's first locked region (hw5.c passenger_controller): store
      the floors, reset the slot and raise its ready flag. Enabled once the
      passenger's previous trip, if any, is over.
    */
    method Publish(passenger: nat, fromFloor: int, toFloor: int)
      requires Consistent() && passenger < passengers
      requires P.Idle(Abstract().slots[passenger])
      modifies requests, readyForPickup, inElevator, exitedElevator, atPickup, atDestination, servingElevator
      ensures Abstract() == P.Apply(old(Abstract()), P.Publish(passenger, fromFloor, toFloor))
      ensures Consistent()
    {
      ghost var before := Abstract();
      requests[passenger] := P.TripRequest(fromFloor, toFloor);
      assert Abstract().slots == before.slots;
      ResetFlags(passenger);
      ghost var reset := Abstract();
      readyForPickup[passenger] := true;
      assert Abstract().slots == reset.slots[passenger := reset.slots[passenger].(ready := true)];
      P.StepAdvancesOneSlot(old(Abstract()), P.Publish(passenger, fromFloor, toFloor));
    }

    /**
      One pass of the elevator's scan (hw5.c elevator_controller): claim the
      lowest ready slot, or decide between waiting and returning.
    */
    method Claim(elevator: nat) returns (outcome: P.Outcome)
      requires Consistent()
      modifies this, readyForPickup, servingElevator
      ensures outcome == P.Scan(old(Abstract()))
      ensures Abstract() == P.Apply(old(Abstract()), P.Claim(elevator))
      ensures Consistent()
    {
      var pid := -1;
      var found := false;
      for i := 0 to passengers
        invariant forall j | 0 <= j < i :: !readyForPickup[j]
        invariant unchanged(this, readyForPickup, servingElevator)
      {
        if readyForPickup[i] {
          assert Slots()[i].ready && forall j | 0 <= j < i :: !Slots()[j].ready;
          assert P.FirstReady(Slots(), 0) == i;
          pid := i;
          readyForPickup[i] := false;
          servingElevator[pid] := elevator;
          tripsRemaining := tripsRemaining - 1;
          found := true;
          break;
        }
      }
      if found {
        outcome := P.Claimed(pid);
      } else if tripsRemaining <= 0 {
        assert P.NoneReady(Abstract().slots);
        outcome := P.Finished;
      } else {
        assert P.NoneReady(Abstract().slots);
        outcome := P.Wait;
      }
      P.StepAdvancesOneSlot(old(Abstract()), P.Claim(elevator));
    }

    /** The elevator's announcement at the pickup floor, for the slot it claimed. */
    method ArriveAtPickup(pid: nat, elevator: nat)
      requires Consistent() && pid < passengers
      requires servingElevator[pid] == elevator && !atPickup[pid]
      modifies atPickup
      ensures Abstract() == P.Apply(old(Abstract()), P.ArriveAtPickup(pid, elevator))
      ensures Consistent()
    {
      atPickup[pid] := true;
      P.StepAdvancesOneSlot(old(Abstract()), P.ArriveAtPickup(pid, elevator));
    }

    /**
      The end of the passenger's wait for pickup: the elevator id it reads is
      the one that claimed the slot, never the "none" value.
    */
    method AwaitPickup(passenger: nat) returns (elevator: int)
      requires Consistent() && passenger < passengers
      requires atPickup[passenger]
      ensures elevator >= 0 && elevator == Abstract().slots[passenger].serving
    {
      elevator := servingElevator[passenger];
      assert Abstract().slots[passenger].atPickup;
    }

    /**
      The floors the elevator reads from Passenger[pid] on its way to pickup
      and to the destination (read outside the lock in hw5.c; see
      Protocol.ClaimIsExclusive for why they are the published ones).
    */
    method ClaimedFloors(pid: nat) returns (fromFloor: int, toFloor: int)
      requires Valid() && pid < passengers
      ensures P.TripRequest(fromFloor, toFloor) == Abstract().requests[pid]
    {
      fromFloor := requests[pid].fromFloor;
      toFloor := requests[pid].toFloor;
    }

    /** The passenger's announcement that it boarded, after observing the elevator at pickup. */
    method Board(passenger: nat)
      requires Consistent() && passenger < passengers
      requires atPickup[passenger] && !inElevator[passenger]
      modifies inElevator
      ensures Abstract() == P.Apply(old(Abstract()), P.Board(passenger))
      ensures Consistent()
    {
      inElevator[passenger] := true;
      P.StepAdvancesOneSlot(old(Abstract()), P.Board(passenger));
    }

    /** The elevator's announcement at the destination, after observing its passenger boarded. */
    method ArriveAtDestination(pid: nat, elevator: nat)
      requires Consistent() && pid < passengers
      requires servingElevator[pid] == elevator && inElevator[pid] && !atDestination[pid]
      modifies atDestination
      ensures Abstract() == P.Apply(old(Abstract()), P.ArriveAtDestination(pid, elevator))
      ensures Consistent()
    {
      atDestination[pid] := true;
      P.StepAdvancesOneSlot(old(Abstract()), P.ArriveAtDestination(pid, elevator));
    }

    /** The passenger's announcement that it left, after observing the elevator at the destination. */
    method Exit(passenger: nat)
      requires Consistent() && passenger < passengers
      requires atDestination[passenger] && !exitedElevator[passenger]
      modifies exitedElevator
      ensures Abstract() == P.Apply(old(Abstract()), P.Exit(passenger))
      ensures Consistent()
    {
      exitedElevator[passenger] := true;
      P.StepAdvancesOneSlot(old(Abstract()), P.Exit(passenger));
    }
  }
}
