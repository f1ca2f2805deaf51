/**
 * The pool of resource monitoring ids of src/modules/pmcs/intel_rdt_core.c.
 *
 * Id 0 is reserved, so id r lives in entry r - 1 of the node arrays.  The arrays have
 * as many entries as the fill loops write.
 */
module RmidPool {
  import opened Arithmetic
  import opened Sequences

  /** Any other value of the policy selects no id. */
  datatype Policy = Fifo | Lifo | Random | Other

  /** The numbers 1 to n from start + 1 on, going round. */
  lemma Rotation(s: seq<nat>, n: nat, start: nat)
    requires |s| == n && start < n
    requires forall k | 0 <= k < n :: s[k] == if k < n - start then start + k + 1 else k - (n - start) + 1
    ensures NoDuplicates(s) && forall r: nat | 1 <= r <= n :: r in s
    ensures forall k | 0 <= k < n :: s[k] == (start + k) % n + 1
  {
    forall r: nat | 1 <= r <= n ensures r in s {
      var k := if r > start then r - 1 - start else r - 1 + n - start;
      assert s[k] == r;
    }
    forall k | 0 <= k < n ensures s[k] == (start + k) % n + 1 {
      ModWrap(start + k, n);
    }
  }

  /** Which entry of a free list of n ids a policy takes. */
  function Choice(policy: Policy, n: nat, random: nat): (i: nat)
    requires n > 0
    ensures i < n
  {
    match policy
    case Fifo => 0
    case Lifo => n - 1
    case Random => DivMod(random, n); random % n
    case Other => 0
  }

  class Pool {
    const refCounter: array<nat>
    const freeRmid: array<bool>
    const assignedRmids: array<nat>
    var available: seq<nat>
    var nrAvailable: int
    var nrAssigned: nat
    ghost var offered: seq<nat>   // the initial list followed by every id put back
    ghost var handed: seq<nat>    // every id handed out

    ghost predicate Arrays() {
      refCounter.Length == freeRmid.Length == assignedRmids.Length > 0 && refCounter != assignedRmids
    }

    function N(): nat { refCounter.Length }

    /** The ids in use, as the system-wide monitor sees them. */
    ghost function Assigned(): seq<nat>
      requires Arrays() && nrAssigned <= N()
      reads this, assignedRmids
    {
      assignedRmids[..nrAssigned]
    }

    ghost predicate IsId(r: nat) { 1 <= r <= N() }

    /** Each id is free or in use, never both, and the flags and counters agree. */
    ghost predicate Consistent(r: nat)
      requires Arrays() && IsId(r) && nrAssigned <= N()
      reads this, refCounter, freeRmid, assignedRmids
    {
      && (r in available <==> r !in Assigned())
      && (r in available <==> freeRmid[r - 1])
      && (r in available <==> refCounter[r - 1] == 0)
    }

    ghost predicate Valid()
      reads this, refCounter, freeRmid, assignedRmids
    {
      && Arrays()
      && nrAvailable == |available| && nrAssigned <= N()
      && |available| + nrAssigned == N()
      && NoDuplicates(available) && NoDuplicates(Assigned())
      && (forall r <- available + Assigned() :: IsId(r))
      && forall r: nat | IsId(r) :: Consistent(r)
    }

    /** Ids have left in the order in which they were offered. */
    ghost predicate InOrder()
      reads this
    {
      handed + available == offered
    }

    /** initialize_rmid_pool: the ids from a random one on, then those before it. */
    constructor (nrRmids: nat, random: nat)
      requires nrRmids > 0
      ensures Valid() && N() == nrRmids && nrAssigned == 0
      ensures |available| == nrRmids
      ensures forall k | 0 <= k < nrRmids :: available[k] == (random % nrRmids + k) % nrRmids + 1
      ensures InOrder() && handed == []
      ensures fresh(refCounter) && fresh(freeRmid) && fresh(assignedRmids)
    {
      refCounter := new nat[nrRmids];
      freeRmid := new bool[nrRmids];
      assignedRmids := new nat[nrRmids];
      available, nrAvailable, nrAssigned, handed := [], nrRmids, 0, [];
      new;
      DivMod(random, nrRmids);
      var startingItem := random % nrRmids;
      AddRange(startingItem, nrRmids);
      AddRange(0, startingItem);
      offered := available;
      Rotation(available, nrRmids, startingItem);
      AllFree();
    }

    lemma AllFree()
      requires Arrays() && nrAssigned == 0 && nrAvailable == |available| == N() && NoDuplicates(available)
      requires forall k | 0 <= k < N() :: freeRmid[k] && refCounter[k] == 0
      requires forall r: nat :: r in available <==> IsId(r)
      ensures Valid()
    {
      assert Assigned() == [];
    }

    // Mark the ids of entries lo..hi free and append them to the free list.
    method AddRange(lo: nat, hi: nat)
      requires Arrays() && lo <= hi <= N()
      modifies this`available, refCounter, freeRmid
      ensures |available| == |old(available)| + (hi - lo)
      ensures forall k | 0 <= k < |old(available)| :: available[k] == old(available)[k]
      ensures forall k | |old(available)| <= k < |available| :: available[k] == lo + (k - |old(available)|) + 1
      ensures forall k | 0 <= k < N() && !(lo <= k < hi) :: freeRmid[k] == old(freeRmid[k]) && refCounter[k] == old(refCounter[k])
      ensures forall k | lo <= k < hi :: freeRmid[k] && refCounter[k] == 0
    {
      for i := lo to hi
        invariant |available| == |old(available)| + (i - lo)
        invariant forall k | 0 <= k < |old(available)| :: available[k] == old(available)[k]
        invariant forall k | |old(available)| <= k < |available| :: available[k] == lo + (k - |old(available)|) + 1
        invariant forall k | 0 <= k < N() && !(lo <= k < i) :: freeRmid[k] == old(freeRmid[k]) && refCounter[k] == old(refCounter[k])
        invariant forall k | lo <= k < i :: freeRmid[k] && refCounter[k] == 0
      {
        freeRmid[i], refCounter[i] := true, 0;
        available := available + [i + 1];
      }
    }

    /** get_rmid: 0 when the pool is empty, else an id chosen by the policy, now in use once. */
    method GetRmid(policy: Policy, random: nat) returns (rmid: nat)
      requires Valid()
      modifies this, refCounter, freeRmid, assignedRmids
      ensures Valid()
      ensures old(available) == [] || policy.Other? ==> rmid == 0 && available == old(available) && Assigned() == old(Assigned())
      ensures old(available) != [] && !policy.Other? ==>
                var i := Choice(policy, |old(available)|, random);
                && rmid == old(available)[i]
                && available == RemoveAt(old(available), i)
                && Assigned() == old(Assigned()) + [rmid]
                && IsId(rmid) && refCounter[rmid - 1] == 1 && !freeRmid[rmid - 1]
      ensures old(available) != [] ==>
                && (policy.Fifo? ==> rmid == old(available)[0])
                && (policy.Lifo? ==> rmid == old(available)[|old(available)| - 1])
                && (policy.Random? ==> 0 <= random % |old(available)| < |old(available)| && rmid == old(available)[random % |old(available)|])
      ensures forall r: nat | IsId(r) && r != rmid :: refCounter[r - 1] == old(refCounter[r - 1])
      ensures offered == old(offered) && (policy.Fifo? && old(InOrder()) ==> InOrder())
      ensures rmid != 0 ==> handed == old(handed) + [rmid]
    {
      if available == [] || policy.Other? {
        return 0;
      }
      var i := 0;
      match policy {
        case Fifo =>
        case Lifo => i := |available| - 1;
        case Random =>
          // Walk the list, counting the random number down.
          DivMod(random, |available|);
          var randomItem := random % nrAvailable;
          while randomItem != 0
            invariant 0 <= i < |available| && randomItem == random % nrAvailable - i >= 0
            decreases randomItem
          {
            i, randomItem := i + 1, randomItem - 1;
          }
        case Other =>
      }
      rmid := available[i];
      Take(i);
    }

    // Move entry i of the free list to the ids in use.
    method Take(i: nat)
      requires Valid() && i < |available|
      modifies this, refCounter, freeRmid, assignedRmids
      ensures Valid() && available == RemoveAt(old(available), i)
      ensures var r := old(available)[i];
              IsId(r) && Assigned() == old(Assigned()) + [r]
              && refCounter[r - 1] == 1 && !freeRmid[r - 1] && handed == old(handed) + [r]
      ensures forall r: nat | IsId(r) && r != old(available)[i] :: refCounter[r - 1] == old(refCounter[r - 1])
      ensures offered == old(offered) && (i == 0 && old(InOrder()) ==> InOrder())
    {
      var r := available[i];
      assert Consistent(r);
      ghost var was, used := available, Assigned();
      available := available[..i] + available[i + 1..];
      nrAvailable := nrAvailable - 1;
      freeRmid[r - 1] := false;
      refCounter[r - 1] := refCounter[r - 1] + 1;
      assignedRmids[nrAssigned] := r;
      nrAssigned := nrAssigned + 1;
      handed := handed + [r];
      assert Assigned() == used + [r];
      Removed(was, i);
      forall q: nat | IsId(q) ensures Consistent(q) {
        assert old(Consistent(q));
      }
    }

    /** use_rmid: one more user of an id that is in use. */
    method UseRmid(rmid: nat)
      requires Valid() && rmid <= N()
      modifies refCounter
      ensures Valid()
      ensures rmid == 0 || freeRmid[rmid - 1] ==> refCounter[..] == old(refCounter[..])
      ensures rmid != 0 && !freeRmid[rmid - 1] ==>
                refCounter[..] == old(refCounter[..])[rmid - 1 := old(refCounter[rmid - 1]) + 1]
    {
      if rmid == 0 || freeRmid[rmid - 1] {
        return;
      }
      assert Consistent(rmid);
      refCounter[rmid - 1] := refCounter[rmid - 1] + 1;
      forall q: nat | IsId(q) ensures Consistent(q) {
        assert old(Consistent(q));
      }
    }

    /** put_rmid: one user fewer; the last one returns the id to the end of the free list. */
    method PutRmid(rmid: nat)
      requires Valid() && rmid <= N()
      modifies this, refCounter, freeRmid, assignedRmids
      ensures Valid() && handed == old(handed)
      ensures var idle := rmid == 0 || old(freeRmid[rmid - 1]);
              && (idle ==> available == old(available) && Assigned() == old(Assigned()) && offered == old(offered)
                           && refCounter[..] == old(refCounter[..]))
              && (!idle ==> refCounter[..] == old(refCounter[..])[rmid - 1 := refCounter[rmid - 1]]
                            && refCounter[rmid - 1] + 1 == old(refCounter[rmid - 1]))
              && (!idle && old(refCounter[rmid - 1]) > 1 ==> available == old(available) && Assigned() == old(Assigned()))
              && (!idle && old(refCounter[rmid - 1]) == 1 ==>
                    && available == old(available) + [rmid] && offered == old(offered) + [rmid]
                    && exists i: nat :: i < |old(Assigned())| && old(Assigned())[i] == rmid
                                        && Assigned() == RemoveAt(old(Assigned()), i))
      ensures old(InOrder()) ==> InOrder()
    {
      if rmid == 0 || freeRmid[rmid - 1] {
        return;
      }
      assert Consistent(rmid);
      refCounter[rmid - 1] := refCounter[rmid - 1] - 1;
      if refCounter[rmid - 1] == 0 {
        GiveBack(rmid);
      } else {
        forall q: nat | IsId(q) ensures Consistent(q) {
          assert old(Consistent(q));
        }
      }
    }

    ghost predicate ValidBut(rmid: nat)
      reads this, refCounter, freeRmid, assignedRmids
    {
      && Arrays()
      && nrAvailable == |available| && nrAssigned <= N()
      && |available| + nrAssigned == N()
      && NoDuplicates(available) && NoDuplicates(Assigned())
      && (forall r <- available + Assigned() :: IsId(r))
      && IsId(rmid) && rmid in Assigned() && rmid !in available && refCounter[rmid - 1] == 0
      && forall r: nat | IsId(r) && r != rmid :: Consistent(r)
    }

    method GiveBack(rmid: nat)
      requires ValidBut(rmid)
      modifies this, freeRmid, assignedRmids
      ensures Valid() && handed == old(handed)
      ensures available == old(available) + [rmid] && offered == old(offered) + [rmid]
      ensures exists i: nat :: i < |old(Assigned())| && old(Assigned())[i] == rmid
                               && Assigned() == RemoveAt(old(Assigned()), i)
      ensures old(InOrder()) ==> InOrder()
    {
      ghost var used := Assigned();
      freeRmid[rmid - 1] := true;
      available := available + [rmid];
      offered := offered + [rmid];
      nrAvailable := nrAvailable + 1;
      var i := Compact(rmid);
      nrAssigned := nrAssigned - 1;
      assert Assigned() == RemoveAt(used, i);
      Removed(used, i);
      forall q: nat | IsId(q) ensures Consistent(q) {
        assert q != rmid ==> old(Consistent(q));
      }
    }

    // Find the id among those in use and close the gap it leaves.
    method Compact(rmid: nat) returns (found: nat)
      requires Arrays() && 0 < nrAssigned <= N() && rmid in Assigned()
      modifies assignedRmids
      ensures found < nrAssigned && old(Assigned())[found] == rmid
      ensures assignedRmids[..nrAssigned - 1] == RemoveAt(old(Assigned()), found)
    {
      var i := 0;
      while i < nrAssigned && assignedRmids[i] != rmid
        invariant 0 <= i <= nrAssigned && forall k | 0 <= k < i :: assignedRmids[k] != rmid
      {
        i := i + 1;
      }
      found := i;
      CloseGap(found, Assigned());
    }

    method CloseGap(found: nat, ghost was: seq<nat>)
      requires Arrays() && found < nrAssigned <= N() && was == Assigned()
      modifies assignedRmids
      ensures assignedRmids[..nrAssigned - 1] == RemoveAt(was, found)
    {
      var i := found;
      while i < nrAssigned - 1
        invariant found <= i < nrAssigned
        invariant forall k | 0 <= k < found :: assignedRmids[k] == was[k]
        invariant forall k | found <= k < i :: assignedRmids[k] == was[k + 1]
        invariant forall k | i <= k < nrAssigned :: assignedRmids[k] == was[k]
      {
        assignedRmids[i] := assignedRmids[i + 1];
        i := i + 1;
      }
    }
  }
}
