# Elevator monitor: the shared flag table as a verified transition system

This project models the synchronisation core of the elevator simulator in
`hw5.c`. Passenger threads and elevator threads meet through a table of
per-passenger flags, a floor table and a global trip counter. A single mutex
and a single broadcast condition variable guard them.

Every locked region that changes the table is modelled as one atomic step.
Every `while (!flag) pthread_cond_wait` loop becomes a precondition
("enabled when the flag is set") of the step that follows it.

- `Protocol` (protocol.dfy) is the pure transition system. A `State` holds
  the floor table, the slots and the counter. There is one function per
  locked region and an `Enabled` predicate for each step. Each slot has a
  stage from 0 to 6: idle, requested, claimed, elevator at pickup, boarded,
  elevator at destination, exited. `WellFormed` says that the flags of every
  slot are exactly those of its stage. The lemmas prove:
  - ordering: every enabled step changes at most one slot. A claim or an
    announcement moves that slot one stage forward, a publish restarts an
    idle or exited slot at stage 1, and a scan that claims nothing changes
    nothing;
  - exclusivity: once an elevator claims a slot, and until that passenger
    publishes again, no other claim takes it, `serving_elevator` keeps naming
    that elevator, and the slot's floors stay the published ones, so the
    elevator's route ends at that destination;
  - the counter is never increased, and each successful claim takes exactly
    one trip off it;
  - request accounting from `initializer()`;
  - a complete trip from publishing to exit, and a two-trip scenario.
- `Registry` (registry.dfy) is the C globals as a class over arrays that its
  methods update in place.
  - Each state-changing method (`Publish`, `Claim` and the four
    announcements) is one locked region. It states its new state as the
    matching `Protocol` step applied to the old state and keeps the table
    well formed.
  - `ResetFlags` is `reset_flags`. The publish region calls it after storing
    the floors (hw5.c:61), and `initializer` calls it for every slot
    (hw5.c:43). It states its new state as `Protocol.Reset` of the old one.
  - `Initializer` runs before any thread starts. It leaves exactly
    `Protocol.Initial`, which is well formed.
  - `AwaitPickup` is the read that ends the passenger's wait for pickup.
  - `ClaimedFloors` is the elevator's read of `Passenger[pid]` outside the
    lock.
  - The claim scan keeps the source's `for` loop with `break`.
- `Travel` (travel.dfy) models `move2dest`. Its loop counts down the
  remaining steps and returns the directions it passes to `move_elevator`.

One call of `elevator_controller` is either a claim followed by one trip, or
a return without claiming. After the final `close_door` (hw5.c:174) the
function returns and does not scan again. In the model, one call is
`Registry.Claim`. When that claim succeeds, `ArriveAtPickup` and
`ArriveAtDestination` follow for the claimed slot (`Protocol.ServiceSteps`).
When the scan finds no ready slot and trips remain, the `Wait` outcome
leaves the table unchanged. The thread blocks and calls `Claim` again.

## Model

| member | source | states |
|---|---|---|
| `Registry.Registry.constructor` | hw5.c:10-26 | allocates seven fresh arrays with one entry per passenger; five distinct flag arrays; the zero-filled static storage: floors 0, every flag clear, serving 0, counter 0; that table is well formed |
| `Registry.Registry.ResetFlags` | hw5.c:28-36 | the new table is `Protocol.Reset` of the old one: slot i has no flag set and serving -1; every other slot, the floors and the counter are unchanged |
| `Protocol.Reset` | hw5.c:28-36 | the reset slot is at stage 0 (idle) and well formed with serving -1; every other slot, the floors and the counter are unchanged |
| `Registry.Registry.Initializer` | hw5.c:38-45 | afterwards the table equals `Protocol.Initial`: floors zeroed, every slot reset, counter PASSENGERS * TRIPS_PER_PASSENGER; the table is well formed |
| `Protocol.Initial` | hw5.c:41-44 | every slot is idle, the whole table is well formed, the floors are zero and the counter is PASSENGERS * TRIPS_PER_PASSENGER |
| `Registry.Registry.Publish` | hw5.c:55-65 | performs the publish step: the floors are stored, the slot is reset and ready is raised; the table stays well formed |
| `Protocol.PublishRequest` | hw5.c:58-64 | the slot's floors are the passenger's; ready is its only flag (stage 1) and serving is -1; other slots, their floors and the counter are unchanged |
| `Protocol.FirstReady` | hw5.c:122-123 | returns the lowest index at or after `from` whose ready flag is set; no index between `from` and it is ready; it returns the length when no slot is ready |
| `Protocol.Scan` | hw5.c:120-141 | `Claimed(p)` only for a ready slot with no ready slot below it; `Finished` exactly when no slot is ready and the counter is at most 0; `Wait` exactly when no slot is ready and the counter is positive |
| `Protocol.ClaimNext` | hw5.c:124-128 | a successful claim clears the slot's ready flag, records the elevator and decrements the counter by one; nothing else changes; a claim that finds nothing changes nothing |
| `Registry.Registry.Claim` | hw5.c:118-142 | the scan loop returns `Scan` of the old table, the new table is `ClaimNext` of the old one, and the table stays well formed |
| `Registry.Registry.ArriveAtPickup` | hw5.c:149-152 | enabled for the slot this elevator claimed, before the pickup flag is set; raises only that flag; keeps the table well formed |
| `Registry.Registry.AwaitPickup` | hw5.c:67-70 | enabled once the elevator is at pickup; the elevator id that the passenger reads is a real elevator (not -1) and is the one recorded in the slot |
| `Registry.Registry.Board` | hw5.c:74-77 | enabled after the passenger observes the elevator at pickup; raises only the boarded flag; keeps the table well formed |
| `Registry.Registry.ArriveAtDestination` | hw5.c:155-166 | enabled for this elevator's slot once the passenger has boarded; raises only the at-destination flag; keeps the table well formed |
| `Registry.Registry.Exit` | hw5.c:79-88 | enabled once the passenger observes the elevator at the destination; raises only the exited flag; keeps the table well formed |
| `Protocol.Announce` | hw5.c:76-165 | one of the four single-flag announcements (hw5.c:76, 87, 150 and 165) sets the named flag of the named slot and keeps that slot's other three flags, its ready flag and its elevator; every other slot, the floors and the counter are unchanged |
| `Protocol.StepAdvancesOneSlot` | hw5.c:55-173 | every enabled step keeps the table well formed and changes only the slot it touches; that slot moves exactly one stage forward (publishing restarts an idle slot at stage 1); the counter drops by one exactly on a successful claim |
| `Protocol.RunKeepsWellFormed` | hw5.c:55-173 | every run of enabled steps keeps the table well formed |
| `Protocol.RunCounter` | hw5.c:127 | over any run, the counter drops by exactly the number of successful claims and is never increased |
| `Protocol.RunConservesRequests` | hw5.c:61-127 | over any run, requests still waiting plus claims made equals requests waiting at the start plus publishes: every claim consumes exactly one published request |
| `Protocol.ClaimIsExclusive` | hw5.c:123-160 | once elevator e holds a slot, no claim selects that slot again, serving keeps naming e and the slot's floors stay the published ones until that passenger publishes again, so the passenger reads the claiming elevator's id |
| `Registry.Registry.ClaimedFloors` | hw5.c:145 | the floors read from `Passenger[pid]` outside the lock are that slot's entry of the floor table; `Travel.ClaimedTripRoute` shows they are the published ones |
| `Protocol.TripAccounting` | hw5.c:133-140 | from `initializer()`: counter = PASSENGERS * TRIPS_PER_PASSENGER - publishes + waiting requests; the counter stays non-negative while at most that many requests are published; an elevator returns only after that many publishes, each of them claimed |
| `Protocol.ServiceCompletes` | hw5.c:67-172 | after a claim, the four announcements are enabled in protocol order and leave the slot with every later flag set and the same elevator |
| `Protocol.PublishIntoIdle` | hw5.c:58-64 | publishing into an idle slot is enabled and yields the floors stored and ready as the slot's only flag |
| `Protocol.ClaimLoneRequest` | hw5.c:122-128 | when exactly one slot is ready, the scan claims it: its ready flag is cleared, it names the elevator and the counter drops by one |
| `Protocol.PublishThenClaim` | hw5.c:58-128 | a publish followed by a scan, with no other request waiting, is an enabled run that claims exactly that slot and leaves it at stage 2 naming the elevator |
| `Protocol.LoneTripCompletes` | hw5.c:52-174 | a request published while no other request waits is claimed and served to the end; the slot finishes exited and names the elevator; the counter drops by one; no other slot changes |
| `Protocol.TwoTripScenario` | hw5.c:52-174 | one passenger, one elevator, two trips (0 to 5, then 5 to 2): both trips are claimed, the counter ends at 0 and the next scan returns |
| `Travel.Moves` | hw5.c:100-107 | there is one move per floor of distance; every move is +1 when the destination is above the source and -1 otherwise |
| `Travel.Move2Dest` | hw5.c:97-110 | the countdown loop issues exactly `Moves(source, destination)` and ends at the destination floor |
| `Travel.MovesReachDestination` | hw5.c:100-109 | the moves add up to destination - source, including the case with no moves |
| `Travel.ServiceRoute` | hw5.c:145-160 | the route from the elevator's floor to the pickup floor and on to the destination floor has |at-from| + |to-from| moves and ends at the destination |
| `Travel.ClaimedTripRoute` | hw5.c:145-160 | after any run following the claim in which that passenger does not publish again, the floors the elevator reads are the published ones and its route ends at the published destination |

## Left out

- Threads, `pthread_mutex_*`, `pthread_cond_wait` and `pthread_cond_broadcast` are not modelled, and neither is interleaving inside a region (hw5.c:47-48, 55-89, 118-173). Each locked region is one atomic step. Each wait loop is the precondition of the step after it.
- Liveness is not modelled: deadlock freedom, termination of every elevator, and lost wake-ups. These depend on scheduling and on the program that starts the threads, which is not part of this model.
- A liveness hazard the model does not capture: `reset_flags` clears `passenger_exited_elevator` when the passenger publishes its next trip (hw5.c:61). An elevator still waiting on that flag at hw5.c:171 may then miss the exit it waits for.
- The elevator's waits for boarding and exit (hw5.c:156-157, 171-172) only read the table. Boarding is the precondition of `ArriveAtDestination`. After the exit wait nothing changes the table, so that wait has no step.
- `enter_elevator`, `exit_elevator`, `open_door` and `close_door` are foreign side-effecting callbacks and are left out. `move_elevator` calls appear only as the direction sequence that `Travel.Move2Dest` returns. The elevator id passed with each move is always the caller's and is left out.
- `PASSENGERS` and `TRIPS_PER_PASSENGER` are defined in elevator.h, which is not part of this model. They are taken as positive parameters of the registry.
- `memset` (hw5.c:41) is modelled as setting every floor to 0.
- The 0/1 `int` flags are modelled as `bool`. The source only ever writes 0 or 1 into them and only tests whether they are non-zero.
- Integer width is not modelled: `trips_remaining`, the floors and `destination - source` are unbounded, so 32-bit overflow (including `-1*distance` at `INT_MIN`) is not captured.
- Elevator ids are `nat`. The source uses -1 as "no elevator", so an elevator with id -1 could not be told apart from an unclaimed slot.
- Registry.Registry.Publish: requires the slot to be idle, meaning no trip or a finished one. The C region resets the slot whatever its state. The precondition is the passenger's program order: one call per passenger at a time, each returning only after the exit.
- Registry.Registry.ArriveAtPickup, Registry.Registry.ArriveAtDestination, Registry.Registry.Board and Registry.Registry.Exit: require that their flag is not yet set. In the source this is program order: each thread raises each flag once per trip.
- Registry.Registry.constructor: models the zero-filled static storage before `initializer()`. That table is already well formed, but every slot reads as claimed by elevator 0 rather than unclaimed (-1) until `Initializer` resets it.
