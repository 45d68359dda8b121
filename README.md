# Dining philosophers engine

A Dafny model of the simulation engine of a dining-philosophers page. It
covers the philosophers sitting in a ring, each sharing one chopstick with each
neighbour, and the chopstick table. The model follows how the engine
handles them:

- a philosopher may eat only when neither ring neighbour is eating and both of
  its chopsticks are free;
- pickup goes by parity: an even philosopher takes its left chopstick first and
  an odd one its right; if the second chopstick is taken, the first is put back;
- a tick visits the philosophers in ascending index order and moves each one
  thinking → hungry → eating → thinking on its timer;
- pausing rebuilds the chopstick table from the philosophers' states alone.

Layout:

- `table.dfy`, module `Table`. The records (`Philosopher`, `Chopstick`,
  `State`), the ring arithmetic, the eligibility check `CanEat` and the pickup
  `Pickup`. `Pickup` follows script.js's writes in order, including the parity
  order of attempts and the rollback.
- `transitions.dfy`, module `Transitions`. One philosopher's turn (`Step`) and
  the pass over the first `k` philosophers (`TickUpTo`, `Tick`). Also the table
  invariant `Inv`, which has three parts: a chopstick is available exactly when
  it has no owner; every owner is an eating philosopher holding one of its own
  chopsticks; every eating philosopher holds both of its chopsticks. The
  lemmas prove that every turn and every tick preserves `Inv`.
- `resync.dfy`, module `Resync`. The table the pause handler rebuilds
  (`ResyncUpTo`, `Resynced`) and what is proved about it.
- `simulation.dfy`, module `Simulation`. Class `Dinner` holds the
  `philosophers` and `chopsticks` arrays. The build (`InitSimulation`, which
  the reset handler also runs, and the constructor that calls it) allocates
  fresh arrays and its ensures give their contents directly. The pickup, one
  turn, the tick pass and the pause resync change the arrays in place, and each
  is proved equal to the function above that specifies it.

Modelling choices:

- Durations, timers and `deltaTime` are `nat` milliseconds.
- The random durations are inputs. The first thinking and eating times go to
  the constructor. The thinking time drawn when a meal ends is `redraws[i]` in
  `UpdateSimulation`.
- The class uses `NUM_PHILOSOPHERS = 5` (script.js:2). The functions and lemmas
  hold for any table of `n >= 2` seats.
- A philosopher's `leftChopstick`/`rightChopstick` references are set once in
  `initSimulation` (script.js:127-130) and never reassigned. They are modelled
  as the index functions `LeftChopstick(i) = i` and
  `RightChopstick(i, n) = Next(i, n)`.
- `Next` and `Prev` are written with comparisons instead of `%`.
  `Table.RingArithmetic` proves they equal script.js's `(i + 1) % N` and
  `(i - 1 + N) % N`.

Behaviour kept as script.js has it:

- The eating time is drawn once, at construction (script.js:103), and is not
  drawn again. Only the thinking time is drawn again when a meal ends
  (script.js:481).
- Finishing a meal frees both chopsticks without checking their owner
  (script.js:473-476), and no fault is raised on release by a non-owner.
  `Transitions.ReleasedWereOwn` proves that under the invariant the owner was
  always the eater.
- The neighbour-eating check in `canPhilosopherEat` is always applied before
  pickup. `Transitions.NeighbourCheckRedundant` proves that under the invariant
  it adds nothing to the chopstick check.

## Model

| member | source | states |
|---|---|---|
| Table.RingArithmetic | script.js:382-383 | `Next`/`Prev` equal script.js's `(i + 1) % N` and `(i - 1 + N) % N`, stay in range, undo each other and, for at least two seats, never name the seat itself |
| Table.Pickup | script.js:401-437 | succeeds exactly when both of `i`'s chopsticks were available on entry. On success both become unavailable and owned by `i`. Only chopsticks `i` and `(i + 1) % N` are ever written. On failure no availability flag changes and no owner is added. On failure from a consistent table, the table equals its value on entry (the partial grab is rolled back) |
| Table.PickupParityIrrelevant | script.js:405-435 | from a consistent table, even and odd philosophers get the same outcome: both chopsticks taken, or the table untouched; parity fixes only the order of attempts |
| Transitions.NeighbourCheckRedundant | script.js:381-398 | under the invariant the eligibility check passes exactly when both of the philosopher's chopsticks are available, and then neither ring neighbour, `(i - 1 + N) % N` nor `(i + 1) % N`, is eating: the neighbour test is redundant with the chopstick test |
| Table.CanEatThenPickup | script.js:462 | whenever the eligibility check passes, the pickup called after it returns true and takes exactly the philosopher's two chopsticks |
| Transitions.Step | script.js:449-485 | one philosopher's turn. Only that philosopher and its own two chopsticks change, and its eating time is kept. Thinking becomes hungry exactly when `stateTimer + deltaTime >= thinkingTime`, with the timer reset. Hungry becomes eating exactly when the eligibility check passes; it then takes both chopsticks and resets the timer. Otherwise it stays hungry, only its timer grows, and the table is unchanged. Eating becomes thinking exactly when the timer reaches `eatingTime`. Both chopsticks are then freed with no owner, the timer is reset and the thinking time is replaced by the new draw |
| Transitions.TickUpTo | script.js:445-485 | the pass in ascending index order keeps sizes and every eating time, and leaves every philosopher not yet visited untouched |
| Transitions.EatingIffOwnsBoth | script.js:461-476 | under the invariant a philosopher is eating exactly when it owns both its chopsticks |
| Transitions.NoAdjacentEating | script.js:381-398 | under the invariant two ring neighbours are never both eating |
| Transitions.ReleasedWereOwn | script.js:473-476 | the unchecked release at the end of a meal frees only chopsticks whose owner was the eater itself |
| Transitions.QuietTurnKeepsInv | script.js:452-459 | a turn that neither starts nor ends a meal and changes no chopstick keeps the invariant |
| Transitions.AcquireKeepsInv | script.js:461-467 | taking two available chopsticks and starting to eat keeps the invariant |
| Transitions.ReleaseKeepsInv | script.js:470-484 | ending a meal and freeing both chopsticks keeps the invariant |
| Transitions.StepPreservesInv | script.js:451-485 | every turn, in every state, keeps the invariant |
| Transitions.TickPreservesInv | script.js:445-485 | every prefix of a tick, and so the whole tick, keeps the invariant: consistency, at most one owner per chopstick, eating exactly when owning both, and no adjacent eaters |
| Transitions.VisitedOnce | script.js:445 | each philosopher takes exactly one turn per tick: later turns in the same pass leave its record alone |
| Transitions.AllHungryProgress | script.js:461-467 | when all philosophers are hungry and the invariant holds, philosopher 0 is eating at the end of the next tick, so a ring in which everyone is hungry has an eater after one tick |
| Resync.ResyncUpTo | script.js:538-547 | replaying the eating philosophers in ascending order keeps the table size; what the replay writes is stated by `ResyncUpToOwners`, `ResyncUpToHeld` and `ResyncedOwnership` |
| Resync.ReplayEaterKeepsFacts | script.js:539-545 | replaying one eating philosopher keeps the table consistent, keeps every owner an eater holding one of its own chopsticks, and marks that philosopher's two chopsticks taken |
| Resync.ResyncUpToOwners | script.js:531-547 | each prefix of the replay is consistent. Every owner is an eating philosopher already replayed that holds one of its own chopsticks. Every replayed eater's chopsticks are taken |
| Resync.ResyncUpToHeld | script.js:538-547 | without adjacent eaters, every eating philosopher replayed so far holds both its chopsticks |
| Resync.ResyncedWellFormed | script.js:531-547 | for any states, the rebuilt table is consistent and every owner is an eating philosopher holding one of its own chopsticks. A chopstick is taken exactly when one of the two philosophers beside it is eating |
| Resync.ResyncedOwnership | script.js:531-547 | without adjacent eaters, chopstick `c` is unavailable and owned by `j` exactly when `j` is eating and `c` is one of `j`'s two chopsticks. Every other chopstick is available with no owner, and the rebuilt table satisfies the invariant |
| Resync.ResyncKeepsValidTable | script.js:531-547 | when the invariant already holds, the rebuild leaves the table exactly as it was |
| Simulation.Dinner.constructor | script.js:86-130 | builds `NUM_PHILOSOPHERS` philosophers, all thinking with timer 0 and the given durations, and as many chopsticks, all available with no owner; the invariant holds |
| Simulation.Dinner.InitSimulation | script.js:86-130 | replaces both arrays with fresh ones in the initial state above (the reset handler's rebuild, script.js:573) |
| Simulation.Dinner.TryPickupChopsticks | script.js:401-437 | the field-by-field writes on the chopsticks array, in parity order with rollback, give exactly `Pickup`'s result and table |
| Simulation.Dinner.UpdatePhilosopher | script.js:449-485 | one turn updates the arrays in place to exactly `Step` of the old state |
| Simulation.Dinner.UpdateSimulation | script.js:445-485 | the loop in ascending index order updates the arrays to exactly `Tick` of the old state and keeps the invariant |
| Simulation.Dinner.PauseResync | script.js:531-547 | the two loops rebuild the chopsticks array to exactly `Resynced` of the philosophers. A table that satisfied the invariant is left unchanged. Without adjacent eaters the rebuilt table satisfies the invariant |

## Left out

- Canvas drawing (`draw`, script.js:137-371): rendering and geometry only.
- Animation (`startAnimation`, `updateAnimation`, `easeInOutQuad`,
  `interpolate`). Also the `scale`, `rotation`, `color`, `animation`, `x`, `y`
  and `angle` fields. These are presentation, computed in floating point.
- `adjustColor` (script.js:374-378): colour styling.
- `animate`, `requestAnimationFrame`, `performance.now` and the
  `UPDATE_INTERVAL` gate that decides when a tick runs and what `deltaTime` is
  (script.js:501-513). `deltaTime` is a parameter of the tick.
- The DOM state list, `scrollToSimulation` and the event-listener wiring, with
  the running flag and `cancelAnimationFrame`. The pause handler is modelled
  only as its chopstick resync. The reset handler is modelled only as its call
  of the build.
- `Math.random` (script.js:102-103, script.js:481): the drawn durations are
  inputs, and their ranges ([2000, 5000) and [1000, 3000) ms) are not enforced.
  Durations are whole milliseconds rather than floating-point values.
- A configuration surface, random seeds and a read-only state snapshot:
  script.js has none of them.
