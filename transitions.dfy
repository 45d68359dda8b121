/** The per-tick state machine: one philosopher's step, the pass over all
    philosophers in ascending index order, and the table invariant that every
    pass preserves. */
module Transitions {
  import opened Table

  /** Philosopher `i`'s turn in a tick of `delta` milliseconds. `redraw` is the
      thinking time drawn for it if it finishes eating on this turn. */
  function Step(ps: seq<Philosopher>, cs: seq<Chopstick>, i: nat, delta: nat, redraw: nat)
    : (r: (seq<Philosopher>, seq<Chopstick>))
    requires 2 <= |ps| == |cs| && i < |ps|
    ensures |r.0| == |ps| && |r.1| == |cs|
    // only philosopher i and its own two chopsticks are touched
    ensures forall j :: 0 <= j < |ps| && j != i ==> r.0[j] == ps[j]
    ensures forall c :: 0 <= c < |cs| && c != i && c != Next(i, |cs|) ==> r.1[c] == cs[c]
    // the eating time is never changed
    ensures r.0[i].eatingTime == ps[i].eatingTime
    // thinking becomes hungry exactly when the timer reaches the thinking time
    ensures ps[i].state == Thinking ==>
      r.1 == cs && r.0[i].state != Eating && r.0[i].thinkingTime == ps[i].thinkingTime &&
      (r.0[i].state == Hungry <==> ps[i].stateTimer + delta >= ps[i].thinkingTime) &&
      r.0[i].stateTimer == (if r.0[i].state == Hungry then 0 else ps[i].stateTimer + delta)
    // hungry becomes eating exactly when the eligibility check passes, taking both chopsticks
    ensures ps[i].state == Hungry ==>
      r.0[i].state != Thinking && r.0[i].thinkingTime == ps[i].thinkingTime &&
      (r.0[i].state == Eating <==> CanEat(ps, cs, i)) &&
      (r.0[i].state == Eating ==> r.0[i].stateTimer == 0 && r.1 == Grab(cs, i)) &&
      (r.0[i].state == Hungry ==> r.0[i].stateTimer == ps[i].stateTimer + delta && r.1 == cs)
    // eating becomes thinking exactly when the timer reaches the eating time, freeing both chopsticks
    ensures ps[i].state == Eating ==>
      r.0[i].state != Hungry &&
      (r.0[i].state == Thinking <==> ps[i].stateTimer + delta >= ps[i].eatingTime) &&
      (r.0[i].state == Thinking ==>
        r.0[i].stateTimer == 0 && r.0[i].thinkingTime == redraw &&
        r.1 == cs[i := Free()][Next(i, |cs|) := Free()]) &&
      (r.0[i].state == Eating ==>
        r.0[i].stateTimer == ps[i].stateTimer + delta && r.0[i].thinkingTime == ps[i].thinkingTime &&
        r.1 == cs)
  {
    var n := |ps|;
    var p := ps[i].(stateTimer := ps[i].stateTimer + delta);
    var ticked := ps[i := p];
    match p.state
    case Thinking =>
      if p.stateTimer >= p.thinkingTime then (ps[i := p.(state := Hungry, stateTimer := 0)], cs)
      else (ticked, cs)
    case Hungry =>
      if CanEat(ticked, cs, i) then
        var (ok, taken) := Pickup(cs, i);
        if ok then (ps[i := p.(state := Eating, stateTimer := 0)], taken) else (ticked, taken)
      else (ticked, cs)
    case Eating =>
      if p.stateTimer >= p.eatingTime then
        (ps[i := p.(state := Thinking, stateTimer := 0, thinkingTime := redraw)],
         cs[LeftChopstick(i) := Free()][RightChopstick(i, n) := Free()])
      else (ticked, cs)
  }

  /** The state after the first `k` philosophers, in ascending index order,
      have taken their turn in one tick. */
  function TickUpTo(ps: seq<Philosopher>, cs: seq<Chopstick>, delta: nat, redraws: seq<nat>, k: nat)
    : (r: (seq<Philosopher>, seq<Chopstick>))
    requires 2 <= |ps| == |cs| == |redraws| && k <= |ps|
    ensures |r.0| == |ps| && |r.1| == |cs|
    // the eating times are never changed
    ensures forall j :: 0 <= j < |ps| ==> r.0[j].eatingTime == ps[j].eatingTime
    // philosophers not yet visited are untouched
    ensures forall j :: k <= j < |ps| ==> r.0[j] == ps[j]
    decreases k
  {
    if k == 0 then (ps, cs)
    else
      var prev := TickUpTo(ps, cs, delta, redraws, k - 1);
      Step(prev.0, prev.1, k - 1, delta, redraws[k - 1])
  }

  /** One whole tick. */
  function Tick(ps: seq<Philosopher>, cs: seq<Chopstick>, delta: nat, redraws: seq<nat>)
    : (r: (seq<Philosopher>, seq<Chopstick>))
    requires 2 <= |ps| == |cs| == |redraws|
  {
    TickUpTo(ps, cs, delta, redraws, |ps|)
  }

  /** Every held chopstick is held by an eating philosopher whose chopstick it is. */
  ghost predicate OwnersEat(ps: seq<Philosopher>, cs: seq<Chopstick>)
    requires 2 <= |ps| == |cs|
  {
    forall c :: 0 <= c < |cs| && cs[c].owner.Some? ==>
      var j := cs[c].owner.value;
      j < |ps| && ps[j].state == Eating && (c == j || c == Next(j, |cs|))
  }

  /** Every eating philosopher holds both its chopsticks. */
  ghost predicate EatersHoldBoth(ps: seq<Philosopher>, cs: seq<Chopstick>)
    requires 2 <= |ps| == |cs|
  {
    forall j :: 0 <= j < |ps| && ps[j].state == Eating ==>
      cs[j] == Held(j) && cs[Next(j, |cs|)] == Held(j)
  }

  /** The table invariant. */
  ghost predicate Inv(ps: seq<Philosopher>, cs: seq<Chopstick>) {
    2 <= |ps| == |cs| && Consistent(cs) && OwnersEat(ps, cs) && EatersHoldBoth(ps, cs)
  }

  /** Philosopher `j` owns both its chopsticks. */
  ghost predicate OwnsBoth(cs: seq<Chopstick>, j: nat)
    requires j < |cs|
  {
    cs[j].owner == Some(j) && cs[Next(j, |cs|)].owner == Some(j)
  }

  /** Under the invariant a philosopher is eating exactly when it owns both
      its chopsticks. */
  lemma EatingIffOwnsBoth(ps: seq<Philosopher>, cs: seq<Chopstick>, j: nat)
    requires Inv(ps, cs) && j < |ps|
    ensures ps[j].state == Eating <==> OwnsBoth(cs, j)
  {
    if OwnsBoth(cs, j) {
      assert cs[j].owner.Some?;
    }
  }

  /** Under the invariant two ring neighbours never eat at the same time. */
  lemma NoAdjacentEating(ps: seq<Philosopher>, cs: seq<Chopstick>, j: nat)
    requires Inv(ps, cs) && j < |ps|
    ensures !(ps[j].state == Eating && ps[Next(j, |ps|)].state == Eating)
  {
  }

  /** Under the invariant the neighbour check of the eligibility test is
      redundant: it passes exactly when both of the philosopher's chopsticks
      are available, and then neither neighbour is eating. */
  lemma NeighbourCheckRedundant(ps: seq<Philosopher>, cs: seq<Chopstick>, i: nat)
    requires Inv(ps, cs) && i < |ps|
    ensures CanEat(ps, cs, i) <==> cs[i].available && cs[Next(i, |cs|)].available
    ensures cs[i].available && cs[Next(i, |cs|)].available ==>
      ps[Prev(i, |ps|)].state != Eating && ps[Next(i, |ps|)].state != Eating
  {
    var n := |ps|;
    RingArithmetic(i, n);
    RingArithmetic(Prev(i, n), n);
  }

  /** The release on finishing a meal does not check the owner; under the
      invariant the owner of both released chopsticks was the eater itself. */
  lemma ReleasedWereOwn(ps: seq<Philosopher>, cs: seq<Chopstick>, i: nat)
    requires Inv(ps, cs) && i < |ps| && ps[i].state == Eating
    ensures cs[LeftChopstick(i)].owner == Some(i) && cs[RightChopstick(i, |cs|)].owner == Some(i)
  {
  }

  /** A turn that changes no chopstick and neither starts nor ends a meal
      preserves the invariant. */
  lemma QuietTurnKeepsInv(ps: seq<Philosopher>, cs: seq<Chopstick>, i: nat, ps': seq<Philosopher>)
    requires Inv(ps, cs) && i < |ps| == |ps'|
    requires ps[i].state != Eating && ps'[i].state != Eating
    requires forall j :: 0 <= j < |ps| && j != i ==> ps'[j] == ps[j]
    ensures Inv(ps', cs)
  {
    forall c | 0 <= c < |cs| && cs[c].owner.Some?
      ensures var j := cs[c].owner.value; j < |ps'| && ps'[j].state == Eating && (c == j || c == Next(j, |cs|))
    {
      assert cs[c].owner.value != i;
    }
  }

  /** Taking two available chopsticks and starting to eat preserves the invariant. */
  lemma AcquireKeepsInv(ps: seq<Philosopher>, cs: seq<Chopstick>, i: nat, ps': seq<Philosopher>)
    requires Inv(ps, cs) && i < |ps| == |ps'|
    requires cs[i].available && cs[Next(i, |cs|)].available
    requires ps'[i].state == Eating
    requires forall j :: 0 <= j < |ps| && j != i ==> ps'[j] == ps[j]
    ensures Inv(ps', Grab(cs, i))
  {
    var n, k, cs' := |ps|, Next(i, |ps|), Grab(cs, i);
    forall j | 0 <= j < n && ps'[j].state == Eating && j != i
      ensures cs'[j] == Held(j) && cs'[Next(j, n)] == Held(j)
    {
      assert j != k && Next(j, n) != i;
    }
    forall c | 0 <= c < n && cs'[c].owner.Some?
      ensures var j := cs'[c].owner.value; j < n && ps'[j].state == Eating && (c == j || c == Next(j, n))
    {
      if c != i && c != k {
        assert cs'[c] == cs[c];
        assert cs[c].owner.value != i;
      }
    }
  }

  /** Freeing both chopsticks and ending a meal preserves the invariant. */
  lemma ReleaseKeepsInv(ps: seq<Philosopher>, cs: seq<Chopstick>, i: nat, ps': seq<Philosopher>)
    requires Inv(ps, cs) && i < |ps| == |ps'|
    requires ps[i].state == Eating && ps'[i].state != Eating
    requires forall j :: 0 <= j < |ps| && j != i ==> ps'[j] == ps[j]
    ensures Inv(ps', cs[i := Free()][Next(i, |cs|) := Free()])
  {
    var n, k := |ps|, Next(i, |ps|);
    var cs' := cs[i := Free()][k := Free()];
    forall j | 0 <= j < n && ps'[j].state == Eating
      ensures cs'[j] == Held(j) && cs'[Next(j, n)] == Held(j)
    {
      assert j != i;
      assert cs[j] == Held(j) && cs[Next(j, n)] == Held(j);
      assert j != k && Next(j, n) != i;
    }
    forall c | 0 <= c < n && cs'[c].owner.Some?
      ensures var j := cs'[c].owner.value; j < n && ps'[j].state == Eating && (c == j || c == Next(j, n))
    {
      assert c != i && c != k;
      assert cs'[c] == cs[c];
    }
  }

  /** One philosopher's turn preserves the invariant. */
  lemma StepPreservesInv(ps: seq<Philosopher>, cs: seq<Chopstick>, i: nat, delta: nat, redraw: nat)
    requires Inv(ps, cs) && i < |ps|
    ensures Inv(Step(ps, cs, i, delta, redraw).0, Step(ps, cs, i, delta, redraw).1)
  {
    var r := Step(ps, cs, i, delta, redraw);
    if ps[i].state == Eating && r.0[i].state == Eating {
      assert r.1 == cs;
      assert Inv(r.0, cs) by {
        forall c | 0 <= c < |cs| && cs[c].owner.Some?
          ensures var j := cs[c].owner.value; j < |r.0| && r.0[j].state == Eating
        {
          var j := cs[c].owner.value;
          assert j == i || r.0[j] == ps[j];
        }
      }
    } else if ps[i].state == Eating {
      ReleaseKeepsInv(ps, cs, i, r.0);
    } else if r.0[i].state == Eating {
      AcquireKeepsInv(ps, cs, i, r.0);
    } else {
      QuietTurnKeepsInv(ps, cs, i, r.0);
    }
  }

  /** Every prefix of a tick preserves the invariant, and so does the whole tick. */
  lemma {:induction false} TickPreservesInv(ps: seq<Philosopher>, cs: seq<Chopstick>, delta: nat, redraws: seq<nat>, k: nat)
    requires Inv(ps, cs) && |redraws| == |ps| && k <= |ps|
    ensures Inv(TickUpTo(ps, cs, delta, redraws, k).0, TickUpTo(ps, cs, delta, redraws, k).1)
    decreases k
  {
    if k > 0 {
      TickPreservesInv(ps, cs, delta, redraws, k - 1);
      var prev := TickUpTo(ps, cs, delta, redraws, k - 1);
      StepPreservesInv(prev.0, prev.1, k - 1, delta, redraws[k - 1]);
    }
  }

  /** Each philosopher is visited exactly once: after its own turn in a tick,
      the later turns leave its record alone. */
  lemma {:induction false} VisitedOnce(ps: seq<Philosopher>, cs: seq<Chopstick>, delta: nat, redraws: seq<nat>, j: nat, k: nat)
    requires 2 <= |ps| == |cs| == |redraws| && j < k <= |ps|
    ensures TickUpTo(ps, cs, delta, redraws, k).0[j] == TickUpTo(ps, cs, delta, redraws, j + 1).0[j]
    decreases k
  {
    if k > j + 1 {
      VisitedOnce(ps, cs, delta, redraws, j, k - 1);
    }
  }

  /** When every philosopher is hungry and the invariant holds, philosopher 0
      is eating at the end of the next tick. */
  lemma AllHungryProgress(ps: seq<Philosopher>, cs: seq<Chopstick>, delta: nat, redraws: seq<nat>)
    requires Inv(ps, cs) && |redraws| == |ps|
    requires forall j :: 0 <= j < |ps| ==> ps[j].state == Hungry
    ensures Tick(ps, cs, delta, redraws).0[0].state == Eating
  {
    var n := |ps|;
    assert CanEat(ps, cs, 0);
    assert TickUpTo(ps, cs, delta, redraws, 1).0[0].state == Eating;
    VisitedOnce(ps, cs, delta, redraws, 0, n);
  }
}
