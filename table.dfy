/** The entities of the dining-philosophers engine and the two operations that
    only touch the chopstick table: the eligibility check and the pickup with
    back-off. A philosopher's left and right chopstick references are fixed when
    the simulation is built, so they are written here as index functions. */
module Table {

  datatype Option<T> = None | Some(value: T)

  /** The three states a philosopher cycles through. */
  datatype State = Thinking | Hungry | Eating

  /** A philosopher record; durations and the timer are milliseconds. */
  datatype Philosopher = Philosopher(state: State, thinkingTime: nat, eatingTime: nat, stateTimer: nat)

  /** A chopstick: an availability flag and the index of its owner, if any. */
  datatype Chopstick = Chopstick(available: bool, owner: Option<nat>)

  /** A chopstick nobody holds. */
  function Free(): Chopstick { Chopstick(true, None) }

  /** A chopstick held by philosopher `i`. */
  function Held(i: nat): Chopstick { Chopstick(false, Some(i)) }

  /** Philosopher `i` has chopstick `i` on its left. */
  function LeftChopstick(i: nat): nat { i }

  /** The next seat round the ring of `n`. */
  function Next(i: nat, n: nat): nat
    requires i < n
  {
    if i + 1 == n then 0 else i + 1
  }

  /** The previous seat round the ring of `n`. */
  function Prev(i: nat, n: nat): nat
    requires i < n
  {
    if i == 0 then n - 1 else i - 1
  }

  /** Next and Prev are the ring arithmetic of script.js, `(i + 1) % n` and
      `(i - 1 + n) % n`, and undo each other. */
  lemma RingArithmetic(i: nat, n: nat)
    requires i < n
    ensures Next(i, n) == (i + 1) % n && Prev(i, n) == (i - 1 + n) % n
    ensures Next(i, n) < n && Prev(Next(i, n), n) == i && Next(Prev(i, n), n) == i
    ensures 2 <= n ==> Next(i, n) != i && Prev(i, n) != i
  {
    if i + 1 == n {
      assert (i + 1) % n == 0;
    } else {
      assert (i + 1) % n == i + 1;
    }
    if i == 0 {
      assert (i - 1 + n) % n == n - 1;
    } else {
      assert (i - 1 + n) % n == i - 1;
    }
  }

  /** Philosopher `i` has the chopstick at the next seat on its right. */
  function RightChopstick(i: nat, n: nat): nat
    requires i < n
  {
    Next(i, n)
  }

  /** A chopstick is available exactly when it has no owner. */
  ghost predicate Consistent(cs: seq<Chopstick>) {
    forall c :: 0 <= c < |cs| ==> (cs[c].available <==> cs[c].owner == None)
  }

  /** The eligibility check: neither ring neighbour is eating and both of the
      philosopher's chopsticks are available. It only reads. */
  function CanEat(ps: seq<Philosopher>, cs: seq<Chopstick>, i: nat): (ok: bool)
    requires 2 <= |ps| == |cs| && i < |ps|
    ensures ok <==>
      ps[Prev(i, |ps|)].state != Eating && ps[Next(i, |ps|)].state != Eating &&
      cs[i].available && cs[Next(i, |cs|)].available
  {
    var n := |ps|;
    if ps[Prev(i, n)].state == Eating || ps[Next(i, n)].state == Eating then false
    else if !cs[LeftChopstick(i)].available || !cs[RightChopstick(i, n)].available then false
    else true
  }

  /** The table after philosopher `i` has taken both its chopsticks. */
  function Grab(cs: seq<Chopstick>, i: nat): seq<Chopstick>
    requires i < |cs|
  {
    cs[LeftChopstick(i) := Held(i)][RightChopstick(i, |cs|) := Held(i)]
  }

  /** The pickup with back-off, write by write: an even philosopher tries its
      left chopstick first, an odd one its right; when the second is taken the
      first is written back as free. Returns whether both were taken and the
      new table. */
  function Pickup(cs: seq<Chopstick>, i: nat): (r: (bool, seq<Chopstick>))
    requires 2 <= |cs| && i < |cs|
    ensures |r.1| == |cs|
    // succeeds exactly when both chopsticks were available on entry
    ensures r.0 <==> cs[i].available && cs[Next(i, |cs|)].available
    // on success both are held by i and no other chopstick changed
    ensures r.0 ==> r.1 == Grab(cs, i)
    ensures r.0 ==> r.1[i] == Held(i) && r.1[Next(i, |cs|)] == Held(i)
    // only the philosopher's own two chopsticks are ever written
    ensures forall c :: 0 <= c < |cs| && c != i && c != Next(i, |cs|) ==> r.1[c] == cs[c]
    // on failure no availability flag changed and no owner was added
    ensures !r.0 ==> forall c :: 0 <= c < |cs| ==>
      r.1[c].available == cs[c].available && (r.1[c].owner == cs[c].owner || r.1[c].owner == None)
    // on failure from a consistent table the partial grab is rolled back
    ensures !r.0 && Consistent(cs) ==> r.1 == cs
  {
    var l, rt := LeftChopstick(i), RightChopstick(i, |cs|);
    var first, second := if i % 2 == 0 then l else rt, if i % 2 == 0 then rt else l;
    if !cs[first].available then (false, cs)
    else
      var grabbed := cs[first := Held(i)];
      if grabbed[second].available then (true, grabbed[second := Held(i)])
      else (false, grabbed[first := Free()])
  }

  /** The order of attempts does not matter: from a consistent table, the
      pickup either grabs both chopsticks or leaves the table as it was. */
  lemma PickupParityIrrelevant(cs: seq<Chopstick>, i: nat)
    requires 2 <= |cs| && i < |cs|
    requires Consistent(cs)
    ensures Pickup(cs, i) ==
      if cs[i].available && cs[Next(i, |cs|)].available then (true, Grab(cs, i)) else (false, cs)
  {
  }

  /** Whenever the eligibility check passes, the pickup that follows it succeeds. */
  lemma CanEatThenPickup(ps: seq<Philosopher>, cs: seq<Chopstick>, i: nat)
    requires 2 <= |ps| == |cs| && i < |ps|
    requires CanEat(ps, cs, i)
    ensures Pickup(cs, i).0 && Pickup(cs, i).1 == Grab(cs, i)
  {
  }
}
