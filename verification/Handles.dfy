/**
 Handles that go stale: environment ids (TPJOS/kern/env.c:72-128,207-269) and the file ids
 of the file system server (TPJOS/fs/serv.c:49-97). A handle names a slot and one use of
 that slot; it must not resolve to a later use.
 */
module Handles {
  import opened Options
  import opened Scheduler

  const GENERATION: nat := 0x1000           // 1 << ENVGENSHIFT
  const INT_LIMIT: nat := 0x8000_0000
  const PERIOD: nat := 0x7_FFFF             // 2^19 - 1 generations are positive
  const MAXOPEN: nat := 1024
  const UINT_LIMIT: nat := 0x1_0000_0000
  const OPENS: nat := 0x40_0000             // 2^22: a uint32_t file id comes round

  // ------------------------------------------------------------------
  // Environment ids
  // ------------------------------------------------------------------

  /** env.c:222-225, in the arithmetic of an int32_t. */
  function NextId(id: nat, slot: nat): (r: nat)
    requires id < INT_LIMIT && slot < NENV
  {
    var sum := if id + GENERATION >= INT_LIMIT then id + GENERATION - UINT_LIMIT else id + GENERATION;
    var generation := sum - sum % NENV;
    (if generation <= 0 then GENERATION else generation) + slot
  }

  /** The id that a slot has after it has been allocated `n` times. */
  function IdAfter(slot: nat, n: nat): (r: nat)
    requires slot < NENV
    ensures r < INT_LIMIT && (n > 0 ==> r > 0 && r % NENV == slot)
  {
    if n == 0 then 0 else ((n - 1) % PERIOD + 1) * GENERATION + slot
  }

  /** Allocation counts generations and skips the ones that would be negative. */
  lemma CountsGenerations(slot: nat, n: nat)
    requires slot < NENV
    ensures NextId(IdAfter(slot, n), slot) == IdAfter(slot, n + 1)
  {
    if n > 0 {
      var g := (n - 1) % PERIOD;
      assert n % PERIOD == if g + 1 == PERIOD then 0 else g + 1 by {
        Successor(n - 1);
      }
    }
  }

  lemma Successor(n: nat)
    ensures (n + 1) % PERIOD == if n % PERIOD + 1 == PERIOD then 0 else n % PERIOD + 1
  {
    var q, r := n / PERIOD, n % PERIOD;
    assert n + 1 == PERIOD * q + (r + 1);
  }

  /** A slot has the same id at two allocations exactly when they are a multiple of 2^19 - 1 apart. */
  lemma SameIdIff(slot: nat, n: nat, m: nat)
    requires slot < NENV && 0 < n <= m
    ensures IdAfter(slot, n) == IdAfter(slot, m) <==> (m - n) % PERIOD == 0
  {
    SameRemainder(n - 1, m - 1, PERIOD);
  }

  lemma SameRemainder(n: nat, m: nat, p: nat)
    requires n <= m && p > 0
    ensures n % p == m % p <==> (m - n) % p == 0
  {
    var a, b, d := n / p, m / p, (m - n) / p;
    assert n == p * a + n % p && m == p * b + m % p && m - n == p * d + (m - n) % p;
    if n % p == m % p {
      assert m - n == p * (b - a);
      Multiple(m - n, b - a, p);
    } else if (m - n) % p == 0 {
      assert m == p * (a + d) + n % p;
      Remainder(m, a + d, n % p, p);
    }
  }

  lemma Multiple(x: nat, q: int, p: nat)
    requires p > 0 && x == p * q
    ensures x % p == 0
  {
    Remainder(x, q, 0, p);
  }

  lemma Remainder(x: int, q: int, r: nat, p: nat)
    requires p > 0 && x == p * q + r && r < p
    ensures x % p == r
  {
    var k := x / p - q;
    assert p * k + x % p == r;
    assert (k > 0 ==> p * k >= p) && (k < 0 ==> p * k <= 0 - p);
  }

  datatype Allocated = Id(id: nat) | NoneFree | NoMem

  datatype Resolved = BadEnv | Slot(slot: Option<nat>)

  class EnvTable {
    var ids: seq<nat>            // env_id
    var live: seq<bool>          // env_status != ENV_FREE
    var parents: seq<nat>        // env_parent_id
    var free: seq<nat>           // env_free_list, followed through env_link
    ghost var allocs: seq<nat>   // how often each slot has been allocated

    ghost predicate Valid()
      reads this
    {
      && |ids| == |live| == |parents| == |allocs| == NENV
      && (forall i :: 0 <= i < NENV ==> ids[i] == IdAfter(i, allocs[i]) && (live[i] ==> allocs[i] > 0))
      && (forall i :: i in free <==> 0 <= i < NENV && !live[i])
      && (forall j, k :: 0 <= j < k < |free| ==> free[j] != free[k])
    }

    /** env_init: all free, in the order of the array. */
    constructor ()
      ensures Valid() && free == seq(NENV, i => i)
      ensures forall i :: 0 <= i < NENV ==> !live[i] && allocs[i] == 0 && ids[i] == 0 && parents[i] == 0
    {
      ids, live, parents := seq(NENV, _ => 0), seq(NENV, _ => false), seq(NENV, _ => 0);
      free, allocs := seq(NENV, i => i), seq(NENV, _ => 0);
      new;
      forall i | 0 <= i < NENV
        ensures i in free
      {
        assert free[i] == i;
      }
    }

    /** env_alloc. `room`: env_setup_vm finds a page for the page directory. */
    method Alloc(parent: nat, room: bool) returns (r: Allocated)
      requires Valid()
      modifies this
      ensures Valid() && (r.NoneFree? <==> old(free) == []) && (r.NoMem? <==> old(free) != [] && !room)
      ensures !r.Id? ==> ids == old(ids) && live == old(live) && allocs == old(allocs) && parents == old(parents) && free == old(free)
      ensures r.Id? ==> var i := old(free)[0];
        && i < NENV && free == old(free)[1..] && !old(live)[i] && live == old(live)[i := true] && parents == old(parents)[i := parent]
        && allocs == old(allocs)[i := old(allocs)[i] + 1] && ids == old(ids)[i := r.id]
        && r.id == IdAfter(i, allocs[i])
    {
      if free == [] {
        return NoneFree;
      }
      if !room {
        return NoMem;
      }
      var i := free[0];
      assert i in free;
      CountsGenerations(i, allocs[i]);
      ids := ids[i := NextId(ids[i], i)];
      live, parents, allocs := live[i := true], parents[i := parent], allocs[i := allocs[i] + 1];
      assert forall k :: 1 <= k < |free| ==> free[k] != i;
      assert forall j :: j in free <==> j == i || j in free[1..];
      free := free[1..];
      return Id(ids[i]);
    }

    /** The end of env_free. */
    method Free(i: nat)
      requires Valid() && i < NENV && live[i]
      modifies `live, `free
      ensures Valid() && free == [i] + old(free) && live == old(live)[i := false]
    {
      live, free := live[i := false], [i] + free;
      assert forall j :: j in free <==> j == i || j in old(free);
    }

    /** envid2env for the environment in slot `cur`. */
    method Envid2Env(envid: int, checkperm: bool, cur: Option<nat>) returns (r: Resolved)
      requires Valid() && (cur.Some? ==> cur.value < NENV) && (checkperm && envid != 0 ==> cur.Some?)
      ensures r == if envid == 0 then Slot(cur)
                   else if Names(envid, envid % NENV) && (checkperm ==> MayControl(cur.value, envid % NENV)) then Slot(Some(envid % NENV))
                   else BadEnv
      ensures envid != 0 ==> forall i :: 0 <= i < NENV && Names(envid, i) ==> i == envid % NENV
    {
      if envid == 0 {
        return Slot(cur);
      }
      var e := envid % NENV;
      if !live[e] || ids[e] != envid {
        return BadEnv;
      }
      if checkperm && e != cur.value && parents[e] != ids[cur.value] {
        return BadEnv;
      }
      return Slot(Some(e));
    }

    ghost predicate Names(envid: int, i: nat)
      requires Valid() && i < NENV
      reads this
    {
      live[i] && ids[i] == envid
    }

    ghost predicate MayControl(cur: nat, i: nat)
      requires Valid() && cur < NENV && i < NENV
      reads this
    {
      i == cur || parents[i] == ids[cur]
    }

    /** Live ids are positive and distinct, and no two slots ever share one. */
    lemma LiveIdsDistinct(i: nat, j: nat)
      requires Valid() && i < NENV && j < NENV && live[i] && live[j]
      ensures 0 < ids[i] < INT_LIMIT && (ids[i] == ids[j] ==> i == j)
    {
    }

    /** An id that slot `i` got at its n-th allocation names, from then on, the slot exactly while it is
        live and has since been allocated a multiple of 2^19 - 1 times: a freed id stays stale until then. */
    lemma StaleUntilWrap(i: nat, n: nat)
      requires Valid() && i < NENV && 0 < n <= allocs[i]
      ensures Names(IdAfter(i, n), i) <==> live[i] && (allocs[i] - n) % PERIOD == 0
      ensures n < allocs[i] < n + PERIOD ==> !Names(IdAfter(i, n), i)
    {
      SameIdIff(i, n, allocs[i]);
    }
  }

  // ------------------------------------------------------------------
  // File ids
  // ------------------------------------------------------------------

  /** o_fileid after `n` opens of a slot, as a uint32_t. */
  function FileIdAfter(slot: nat, n: nat): (r: nat)
    requires slot < MAXOPEN
    ensures r < UINT_LIMIT && r % MAXOPEN == slot
  {
    slot + n % OPENS * MAXOPEN
  }

  /** The first slot that no client uses. */
  predicate FirstUnused(refs: seq<nat>, i: nat) {
    i < |refs| && refs[i] <= 1 && forall k :: 0 <= k < i ==> refs[k] > 1
  }

  class OpenTable {
    var fileids: seq<nat>        // o_fileid
    var refs: seq<nat>           // pageref(o_fd): 0, 1 for the server alone, more when a client has it
    ghost var opens: seq<nat>

    ghost predicate Valid()
      reads this
    {
      && |fileids| == |refs| == |opens| == MAXOPEN
      && forall i :: 0 <= i < MAXOPEN ==> fileids[i] == FileIdAfter(i, opens[i])
    }

    /** serve_init. */
    constructor ()
      ensures Valid() && forall i :: 0 <= i < MAXOPEN ==> opens[i] == 0 && refs[i] == 0
    {
      fileids, refs, opens := seq(MAXOPEN, i => i), seq(MAXOPEN, _ => 0), seq(MAXOPEN, _ => 0);
    }

    /** openfile_alloc: the first slot that no client uses. Its Fd page is allocated when nobody has it;
        `room`: there is memory for that. */
    method Alloc(room: bool) returns (r: Allocated)
      requires Valid()
      modifies this
      ensures Valid()
      ensures r.NoneFree? <==> forall i :: 0 <= i < MAXOPEN ==> old(refs)[i] > 1
      ensures r.NoMem? <==> !room && exists i: nat :: FirstUnused(old(refs), i) && old(refs)[i] == 0
      ensures !r.Id? ==> fileids == old(fileids) && refs == old(refs) && opens == old(opens)
      ensures r.Id? ==> var i := r.id % MAXOPEN;
        && FirstUnused(old(refs), i) && refs == old(refs)[i := 1] && opens == old(opens)[i := old(opens)[i] + 1]
        && r.id == FileIdAfter(i, opens[i]) == fileids[i] && fileids == old(fileids)[i := r.id]
    {
      var i := 0;
      while i < MAXOPEN
        invariant i <= MAXOPEN && Valid() && fileids == old(fileids) && refs == old(refs) && opens == old(opens)
        invariant forall k :: 0 <= k < i ==> refs[k] > 1
      {
        if refs[i] <= 1 {
          assert FirstUnused(refs, i) && forall k: nat :: FirstUnused(refs, k) ==> k == i;
          if refs[i] == 0 && !room {
            return NoMem;
          }
          NextFileId(i, opens[i]);
          fileids := fileids[i := (fileids[i] + MAXOPEN) % UINT_LIMIT];
          refs, opens := refs[i := 1], opens[i := opens[i] + 1];
          return Id(fileids[i]);
        }
        i := i + 1;
      }
      return NoneFree;
    }

    /** A client maps the Fd page, or unmaps it. */
    method Share(i: nat, more: bool)
      requires Valid() && i < MAXOPEN && refs[i] >= 1 && (!more ==> refs[i] > 1)
      modifies `refs
      ensures Valid() && refs == old(refs)[i := if more then old(refs)[i] + 1 else old(refs)[i] - 1]
    {
      refs := refs[i := if more then refs[i] + 1 else refs[i] - 1];
    }

    /** openfile_lookup; None is -E_INVAL. */
    method Lookup(fileid: nat) returns (r: Option<nat>)
      requires Valid() && fileid < UINT_LIMIT
      ensures r.Some? <==> refs[fileid % MAXOPEN] > 1 && fileids[fileid % MAXOPEN] == fileid
      ensures r.Some? ==> r.value == fileid % MAXOPEN
      ensures forall i, n :: 0 <= i < MAXOPEN && 0 < n <= opens[i] < OPENS && fileid == FileIdAfter(i, n) ==>
        (r.Some? <==> refs[i] > 1 && opens[i] == n)
    {
      var i := fileid % MAXOPEN;
      if refs[i] <= 1 || fileids[i] != fileid {
        return None;
      }
      return Some(i);
    }

    /** A file id resolves only to the open that received it, for fewer than 2^22 opens of its slot; it
        is a positive int, as serve_open needs, for fewer than 2^21. */
    lemma OneOpen(i: nat, n: nat)
      requires Valid() && i < MAXOPEN && 0 < n <= opens[i]
      ensures fileids[i] == FileIdAfter(i, n) <==> (opens[i] - n) % OPENS == 0
      ensures n < 0x20_0000 ==> 0 < FileIdAfter(i, n) < INT_LIMIT
    {
      SameRemainder(n, opens[i], OPENS);
    }
  }

  lemma NextFileId(slot: nat, n: nat)
    requires slot < MAXOPEN
    ensures (FileIdAfter(slot, n) + MAXOPEN) % UINT_LIMIT == FileIdAfter(slot, n + 1)
  {
    var q, r := n / OPENS, n % OPENS;
    assert n + 1 == OPENS * q + (r + 1);
    assert (n + 1) % OPENS == if r + 1 == OPENS then 0 else r + 1;
  }
}
