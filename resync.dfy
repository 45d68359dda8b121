/** The chopstick table rebuilt from the philosophers' states alone, as the
    pause handler does: every chopstick is first freed, then every eating
    philosopher, in ascending index order, takes back its two chopsticks. */
module Resync {
  import opened Table
  import opened Transitions

  /** A table of `n` free chopsticks. */
  function AllFree(n: nat): (r: seq<Chopstick>)
    ensures |r| == n && forall c :: 0 <= c < n ==> r[c].available && r[c].owner == None
  {
    seq(n, _ => Free())
  }

  /** The table after clearing and then replaying philosophers `0 .. k-1`. */
  function ResyncUpTo(ps: seq<Philosopher>, k: nat): (r: seq<Chopstick>)
    requires 2 <= |ps| && k <= |ps|
    ensures |r| == |ps|
    decreases k
  {
    if k == 0 then AllFree(|ps|)
    else
      var prev, j := ResyncUpTo(ps, k - 1), k - 1;
      if ps[j].state == Eating then prev[LeftChopstick(j) := Held(j)][RightChopstick(j, |ps|) := Held(j)]
      else prev
  }

  /** The rebuilt table. */
  function Resynced(ps: seq<Philosopher>): seq<Chopstick>
    requires 2 <= |ps|
  {
    ResyncUpTo(ps, |ps|)
  }

  /** No two ring neighbours are eating. */
  ghost predicate NoAdjacentEaters(ps: seq<Philosopher>) {
    forall j :: 0 <= j < |ps| && ps[j].state == Eating ==> ps[Next(j, |ps|)].state != Eating
  }

  /** Philosopher `j` is eating and chopstick `c` is one of its two. */
  ghost predicate Claims(ps: seq<Philosopher>, j: nat, c: nat)
    requires j < |ps|
  {
    ps[j].state == Eating && (c == j || c == Next(j, |ps|))
  }

  /** Every owner in `r` is an eating philosopher below `k` holding one of its own chopsticks. */
  ghost predicate OwnersReplayed(ps: seq<Philosopher>, r: seq<Chopstick>, k: nat)
    requires |r| == |ps|
  {
    forall c :: 0 <= c < |r| && r[c].owner.Some? ==> var j := r[c].owner.value; j < k && j < |ps| && Claims(ps, j, c)
  }

  /** Both chopsticks of every eating philosopher below `k` are taken in `r`. */
  ghost predicate EatersTaken(ps: seq<Philosopher>, r: seq<Chopstick>, k: nat)
    requires 2 <= |r| == |ps| && k <= |ps|
  {
    forall j :: 0 <= j < k && ps[j].state == Eating ==> !r[j].available && !r[Next(j, |ps|)].available
  }

  /** Replaying one eating philosopher keeps the replay facts. */
  lemma ReplayEaterKeepsFacts(ps: seq<Philosopher>, prev: seq<Chopstick>, j: nat)
    requires 2 <= |ps| == |prev| && j < |ps| && ps[j].state == Eating
    requires Consistent(prev) && OwnersReplayed(ps, prev, j) && EatersTaken(ps, prev, j)
    ensures var r := prev[j := Held(j)][Next(j, |ps|) := Held(j)];
      Consistent(r) && OwnersReplayed(ps, r, j + 1) && EatersTaken(ps, r, j + 1)
  {
    var n, r := |ps|, prev[j := Held(j)][Next(j, |ps|) := Held(j)];
    forall c | 0 <= c < n
      ensures r[c].available <==> r[c].owner == None
      ensures r[c].owner.Some? ==> var o := r[c].owner.value; o < j + 1 && Claims(ps, o, c)
    {
      if c != j && c != Next(j, n) {
        assert r[c] == prev[c];
      }
    }
    forall i | 0 <= i < j + 1 && ps[i].state == Eating
      ensures !r[i].available && !r[Next(i, n)].available
    {
      if i != j && i != Next(j, n) {
        assert r[i] == prev[i];
      }
      if Next(i, n) != j && Next(i, n) != Next(j, n) {
        assert r[Next(i, n)] == prev[Next(i, n)];
      }
    }
  }

  /** What every prefix of the replay establishes for any table of states:
      consistency, every owner an eating philosopher already replayed holding
      one of its own chopsticks, and every replayed eater's chopsticks taken. */
  lemma {:induction false} ResyncUpToOwners(ps: seq<Philosopher>, k: nat)
    requires 2 <= |ps| && k <= |ps|
    ensures Consistent(ResyncUpTo(ps, k))
    ensures OwnersReplayed(ps, ResyncUpTo(ps, k), k)
    ensures EatersTaken(ps, ResyncUpTo(ps, k), k)
    decreases k
  {
    if k > 0 {
      ResyncUpToOwners(ps, k - 1);
      var prev := ResyncUpTo(ps, k - 1);
      if ps[k - 1].state == Eating {
        ReplayEaterKeepsFacts(ps, prev, k - 1);
      } else {
        assert ResyncUpTo(ps, k) == prev;
        forall j | 0 <= j < k && ps[j].state == Eating
          ensures !prev[j].available && !prev[Next(j, |ps|)].available
        {
          assert j < k - 1;
        }
      }
    }
  }

  /** Without adjacent eaters, every philosopher replayed so far that is
      eating holds both its chopsticks. */
  lemma {:induction false} ResyncUpToHeld(ps: seq<Philosopher>, k: nat)
    requires 2 <= |ps| && k <= |ps| && NoAdjacentEaters(ps)
    ensures forall j :: 0 <= j < k && ps[j].state == Eating ==>
      ResyncUpTo(ps, k)[j] == Held(j) && ResyncUpTo(ps, k)[Next(j, |ps|)] == Held(j)
    decreases k
  {
    if k > 0 {
      ResyncUpToHeld(ps, k - 1);
      var n, j := |ps|, k - 1;
      var prev, r := ResyncUpTo(ps, k - 1), ResyncUpTo(ps, k);
      if ps[j].state == Eating {
        assert r == prev[j := Held(j)][Next(j, n) := Held(j)];
        forall i | 0 <= i < j && ps[i].state == Eating
          ensures r[i] == Held(i) && r[Next(i, n)] == Held(i)
        {
          assert Next(i, n) != Next(j, n);
        }
      }
    }
  }

  /** For every table of states the rebuilt table is consistent, every owner
      is an eating philosopher holding one of its own chopsticks, and a
      chopstick is taken exactly when one of the two philosophers beside it
      is eating. */
  lemma ResyncedWellFormed(ps: seq<Philosopher>)
    requires 2 <= |ps|
    ensures Consistent(Resynced(ps)) && OwnersEat(ps, Resynced(ps))
    ensures forall c :: 0 <= c < |ps| ==>
      (!Resynced(ps)[c].available <==> ps[c].state == Eating || ps[Prev(c, |ps|)].state == Eating)
  {
    var n, r := |ps|, Resynced(ps);
    ResyncUpToOwners(ps, n);
    forall c | 0 <= c < n
      ensures !r[c].available <==> ps[c].state == Eating || ps[Prev(c, n)].state == Eating
    {
      RingArithmetic(c, n);
      if !r[c].available {
        RingArithmetic(r[c].owner.value, n);
      }
    }
  }

  /** Without adjacent eaters, chopstick `c` is held by `j` after the rebuild
      exactly when `j` is eating and `c` is one of its two chopsticks; a
      chopstick nobody eating claims is free with no owner. The rebuilt table
      then satisfies the invariant. */
  lemma ResyncedOwnership(ps: seq<Philosopher>, c: nat, j: nat)
    requires 2 <= |ps| && NoAdjacentEaters(ps) && c < |ps| && j < |ps|
    ensures Resynced(ps)[c] == Held(j) <==> Claims(ps, j, c)
    ensures !Claims(ps, c, c) && !Claims(ps, Prev(c, |ps|), c) ==> Resynced(ps)[c] == Free()
    ensures Inv(ps, Resynced(ps))
  {
    var n, r := |ps|, Resynced(ps);
    ResyncUpToHeld(ps, n);
    ResyncedWellFormed(ps);
    RingArithmetic(c, n);
    if r[c].owner.Some? {
      RingArithmetic(r[c].owner.value, n);
    }
  }

  /** When the invariant already holds, the rebuild leaves the table as it was. */
  lemma ResyncKeepsValidTable(ps: seq<Philosopher>, cs: seq<Chopstick>)
    requires Inv(ps, cs)
    ensures Resynced(ps) == cs
  {
    var n, r := |ps|, Resynced(ps);
    forall j | 0 <= j < n && ps[j].state == Eating ensures ps[Next(j, n)].state != Eating {
      NoAdjacentEating(ps, cs, j);
    }
    ResyncUpToOwners(ps, n);
    ResyncUpToHeld(ps, n);
    forall c | 0 <= c < n ensures r[c] == cs[c] {
      if cs[c].owner.Some? {
        var j := cs[c].owner.value;
        assert r[c] == Held(j);
      } else {
        assert cs[c] == Free();
      }
    }
  }
}
