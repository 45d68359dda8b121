/** The simulation object: the philosophers and chopsticks arrays, changed in
    place by the build, the per-tick update and the pause resync. Each method is
    proved equal to the function of the state given in Table, Transitions or
    Resync, whose properties are proved there. */
module Simulation {
  import opened Table
  import opened Transitions
  import opened Resync

  /** The number of philosophers at the table. */
  const NUM_PHILOSOPHERS: nat := 5

  class Dinner {
    var philosophers: array<Philosopher>
    var chopsticks: array<Chopstick>

    /** Both arrays have one entry per seat, at least two seats. */
    ghost predicate Shaped()
      reads this
    {
      2 <= philosophers.Length == chopsticks.Length
    }

    /** The object invariant: the table invariant over the arrays' contents. */
    ghost predicate Valid()
      reads this, philosophers, chopsticks
    {
      Shaped() && Inv(philosophers[..], chopsticks[..])
    }

    /** Builds the table with the given first thinking times and the eating
        times, one per philosopher. */
    constructor (thinkingTimes: seq<nat>, eatingTimes: seq<nat>)
      requires |thinkingTimes| == |eatingTimes| == NUM_PHILOSOPHERS
      ensures Valid() && fresh(philosophers) && fresh(chopsticks)
      ensures philosophers.Length == NUM_PHILOSOPHERS
      ensures forall i :: 0 <= i < philosophers.Length ==>
        philosophers[i] == Philosopher(Thinking, thinkingTimes[i], eatingTimes[i], 0)
      ensures forall c :: 0 <= c < chopsticks.Length ==> chopsticks[c] == Free()
    {
      philosophers := new Philosopher[0];
      chopsticks := new Chopstick[0];
      new;
      InitSimulation(thinkingTimes, eatingTimes);
    }

    /** Replaces both arrays with a fresh table: every philosopher thinking with
        a zero timer, every chopstick available with no owner. */
    method InitSimulation(thinkingTimes: seq<nat>, eatingTimes: seq<nat>)
      requires |thinkingTimes| == |eatingTimes| == NUM_PHILOSOPHERS
      modifies this
      ensures Valid() && fresh(philosophers) && fresh(chopsticks)
      ensures philosophers.Length == NUM_PHILOSOPHERS
      ensures forall i :: 0 <= i < philosophers.Length ==>
        philosophers[i] == Philosopher(Thinking, thinkingTimes[i], eatingTimes[i], 0)
      ensures forall c :: 0 <= c < chopsticks.Length ==> chopsticks[c] == Free()
    {
      var ps := new Philosopher[NUM_PHILOSOPHERS];
      var cs := new Chopstick[NUM_PHILOSOPHERS];
      for i := 0 to NUM_PHILOSOPHERS
        invariant forall j :: 0 <= j < i ==> ps[j] == Philosopher(Thinking, thinkingTimes[j], eatingTimes[j], 0)
        invariant forall c :: 0 <= c < i ==> cs[c] == Free()
      {
        ps[i] := Philosopher(Thinking, thinkingTimes[i], eatingTimes[i], 0);
        cs[i] := Chopstick(true, None);
      }
      philosophers, chopsticks := ps, cs;
    }

    /** The pickup with back-off, as script.js writes it: fields are set one
        at a time on the shared chopstick entries and rolled back on failure. */
    method TryPickupChopsticks(index: nat) returns (ok: bool)
      requires Shaped() && index < chopsticks.Length
      modifies chopsticks
      ensures (ok, chopsticks[..]) == Pickup(old(chopsticks[..]), index)
    {
      var left, right := LeftChopstick(index), RightChopstick(index, chopsticks.Length);
      if index % 2 == 0 {
        if chopsticks[left].available {
          chopsticks[left] := chopsticks[left].(available := false);
          chopsticks[left] := chopsticks[left].(owner := Some(index));
          if chopsticks[right].available {
            chopsticks[right] := chopsticks[right].(available := false);
            chopsticks[right] := chopsticks[right].(owner := Some(index));
            assert chopsticks[..] == old(chopsticks[..])[left := Held(index)][right := Held(index)];
            return true;
          } else {
            chopsticks[left] := chopsticks[left].(available := true);
            chopsticks[left] := chopsticks[left].(owner := None);
            assert chopsticks[..] == old(chopsticks[..])[left := Held(index)][left := Free()];
          }
        }
      } else {
        if chopsticks[right].available {
          chopsticks[right] := chopsticks[right].(available := false);
          chopsticks[right] := chopsticks[right].(owner := Some(index));
          if chopsticks[left].available {
            chopsticks[left] := chopsticks[left].(available := false);
            chopsticks[left] := chopsticks[left].(owner := Some(index));
            assert chopsticks[..] == old(chopsticks[..])[right := Held(index)][left := Held(index)];
            return true;
          } else {
            chopsticks[right] := chopsticks[right].(available := true);
            chopsticks[right] := chopsticks[right].(owner := None);
            assert chopsticks[..] == old(chopsticks[..])[right := Held(index)][right := Free()];
          }
        }
      }
      return false;
    }

    /** Philosopher `index`'s turn in a tick of `deltaTime` milliseconds;
        `redraw` is its next thinking time should it finish eating now. */
    method UpdatePhilosopher(index: nat, deltaTime: nat, redraw: nat)
      requires Shaped() && index < philosophers.Length
      modifies philosophers, chopsticks
      ensures (philosophers[..], chopsticks[..]) ==
        Step(old(philosophers[..]), old(chopsticks[..]), index, deltaTime, redraw)
    {
      var philosopher := philosophers[index];
      philosopher := philosopher.(stateTimer := philosopher.stateTimer + deltaTime);
      philosophers[index] := philosopher;
      match philosopher.state
      case Thinking =>
        if philosopher.stateTimer >= philosopher.thinkingTime {
          philosophers[index] := philosopher.(state := Hungry, stateTimer := 0);
          assert philosophers[..] == old(philosophers[..])[index := philosopher.(state := Hungry, stateTimer := 0)];
        }
      case Hungry =>
        if CanEat(philosophers[..], chopsticks[..], index) {
          var picked := TryPickupChopsticks(index);
          if picked {
            philosophers[index] := philosopher.(state := Eating, stateTimer := 0);
            assert philosophers[..] == old(philosophers[..])[index := philosopher.(state := Eating, stateTimer := 0)];
          }
        }
      case Eating =>
        if philosopher.stateTimer >= philosopher.eatingTime {
          var left, right := LeftChopstick(index), RightChopstick(index, chopsticks.Length);
          chopsticks[left] := chopsticks[left].(available := true);
          chopsticks[left] := chopsticks[left].(owner := None);
          chopsticks[right] := chopsticks[right].(available := true);
          chopsticks[right] := chopsticks[right].(owner := None);
          assert chopsticks[..] == old(chopsticks[..])[left := Free()][right := Free()];
          philosophers[index] := philosopher.(state := Thinking, stateTimer := 0, thinkingTime := redraw);
          assert philosophers[..] ==
            old(philosophers[..])[index := philosopher.(state := Thinking, stateTimer := 0, thinkingTime := redraw)];
        }
    }

    /** One tick: every philosopher takes its turn in ascending index order.
        `redraws[i]` is philosopher `i`'s next thinking time should it finish
        eating in this tick. The invariant is kept. */
    method UpdateSimulation(deltaTime: nat, redraws: seq<nat>)
      requires Valid() && |redraws| == philosophers.Length
      modifies philosophers, chopsticks
      ensures Valid()
      ensures (philosophers[..], chopsticks[..]) ==
        Tick(old(philosophers[..]), old(chopsticks[..]), deltaTime, redraws)
    {
      ghost var ps0, cs0 := philosophers[..], chopsticks[..];
      var index := 0;
      while index < philosophers.Length
        invariant 0 <= index <= philosophers.Length
        invariant (philosophers[..], chopsticks[..]) == TickUpTo(ps0, cs0, deltaTime, redraws, index)
      {
        UpdatePhilosopher(index, deltaTime, redraws[index]);
        index := index + 1;
      }
      TickPreservesInv(ps0, cs0, deltaTime, redraws, philosophers.Length);
    }

    /** The pause resync: the chopstick table is rebuilt from the philosophers'
        states. A table that already satisfied the invariant is left unchanged,
        and without adjacent eaters the rebuilt one satisfies it. */
    method PauseResync()
      requires Shaped()
      modifies chopsticks
      ensures chopsticks[..] == Resynced(philosophers[..])
      ensures old(Valid()) ==> chopsticks[..] == old(chopsticks[..])
      ensures NoAdjacentEaters(philosophers[..]) ==> Valid()
    {
      ghost var cs0 := chopsticks[..];
      var n := chopsticks.Length;
      for c := 0 to n
        invariant forall d :: 0 <= d < c ==> chopsticks[d] == Free()
      {
        chopsticks[c] := chopsticks[c].(available := true);
        chopsticks[c] := chopsticks[c].(owner := None);
      }
      assert chopsticks[..] == ResyncUpTo(philosophers[..], 0);
      for index := 0 to n
        invariant chopsticks[..] == ResyncUpTo(philosophers[..], index)
      {
        if philosophers[index].state == Eating {
          var left, right := LeftChopstick(index), RightChopstick(index, n);
          chopsticks[left] := chopsticks[left].(available := false);
          chopsticks[right] := chopsticks[right].(available := false);
          chopsticks[left] := chopsticks[left].(owner := Some(index));
          chopsticks[right] := chopsticks[right].(owner := Some(index));
        }
      }
      if Inv(philosophers[..], cs0) {
        ResyncKeepsValidTable(philosophers[..], cs0);
      }
      if NoAdjacentEaters(philosophers[..]) {
        ResyncedOwnership(philosophers[..], 0, 0);
      }
    }
  }
}
