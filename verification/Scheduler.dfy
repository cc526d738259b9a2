/** Round-robin choice of the next environment (TPJOS/kern/sched.c). */
module Scheduler {
  import opened Options

  const NENV: nat := 1024

  datatype Status = Free | Dying | Runnable | Running | NotRunnable

  type Envs = s: seq<Status> | |s| == NENV witness seq(NENV, i => Free)

  /** Where the search starts: just after the slot this CPU was last running, or at slot 0. */
  function Start(cur: Option<nat>): nat {
    if cur.Some? then cur.value + 1 else 0
  }

  /** How many slots the search passes before it reaches `j`. */
  function Distance(start: nat, j: nat): nat {
    (j - start) % NENV
  }

  /** `j` is the first runnable slot at or after `start`, in circular order. */
  ghost predicate IsFirstRunnable(envs: Envs, start: nat, j: nat) {
    && j < NENV && envs[j] == Runnable
    && forall k :: 0 <= k < NENV && envs[k] == Runnable ==> Distance(start, j) <= Distance(start, k)
  }

  lemma SlotAtDistance(start: nat, i: nat, j: nat)
    requires j < NENV && i < NENV
    ensures (start + i) % NENV == j <==> Distance(start, j) == i
  {
  }

  /** The search loop of `sched_yield`. */
  method FindRunnable(envs: Envs, cur: Option<nat>) returns (r: Option<nat>)
    ensures r.Some? ==> IsFirstRunnable(envs, Start(cur), r.value)
    ensures r.None? ==> Runnable !in envs
  {
    var indx := 0;
    if cur.Some? {
      indx := cur.value + 1;
    }
    for i := 0 to NENV
      invariant forall k :: 0 <= k < NENV && envs[k] == Runnable ==> Distance(indx, k) >= i
    {
      var j := (indx + i) % NENV;
      SlotAtDistance(indx, i, j);
      if envs[j] == Runnable {
        return Some(j);
      }
      forall k | 0 <= k < NENV && envs[k] == Runnable
        ensures Distance(indx, k) >= i + 1
      {
        SlotAtDistance(indx, i, k);
      }
    }
    return None;
  }

  /** There always is an answer. */
  lemma AlwaysAPick(envs: Envs, start: nat) returns (pick: Option<nat>)
    ensures if pick.Some? then IsFirstRunnable(envs, start, pick.value) else Runnable !in envs
  {
    pick := NearestFrom(envs, start, 0);
  }

  lemma {:induction false} NearestFrom(envs: Envs, start: nat, i: nat) returns (pick: Option<nat>)
    requires i <= NENV && forall k :: 0 <= k < NENV && envs[k] == Runnable ==> Distance(start, k) >= i
    ensures if pick.Some? then IsFirstRunnable(envs, start, pick.value) else Runnable !in envs
    decreases NENV - i
  {
    if i == NENV {
      return None;
    }
    var j := (start + i) % NENV;
    SlotAtDistance(start, i, j);
    if envs[j] == Runnable {
      return Some(j);
    }
    forall k | 0 <= k < NENV && envs[k] == Runnable
      ensures Distance(start, k) >= i + 1
    {
      SlotAtDistance(start, i, k);
    }
    pick := NearestFrom(envs, start, i + 1);
  }

  /** The search has one answer. */
  lemma FirstRunnableUnique(envs: Envs, start: nat, i: nat, j: nat)
    requires IsFirstRunnable(envs, start, i) && IsFirstRunnable(envs, start, j)
    ensures i == j
  {
    SlotAtDistance(start, Distance(start, i), i);
    SlotAtDistance(start, Distance(start, i), j);
  }

  /** Passing over `j` for another slot brings it strictly nearer. */
  lemma DistanceDrops(envs: Envs, start: nat, cur: nat, j: nat)
    requires IsFirstRunnable(envs, start, cur) && j < NENV && envs[j] == Runnable && cur != j
    ensures Distance(cur + 1, j) < Distance(start, j)
  {
  }

  /** A CPU whose curenv was reset searches from slot 0 again: if that is runnable, nobody else gets a turn. */
  lemma ResetStarves(envs: Envs, j: nat)
    requires envs[0] == Runnable && IsFirstRunnable(envs, Start(None), j)
    ensures j == 0
  {
    assert Distance(0, 0) == 0;
  }
}
