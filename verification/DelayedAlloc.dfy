/** The reservations of delayed allocation (fs/ext4/inode.c). */
module DelayedAlloc {
  /** Of struct ext4_inode_info: i_reserved_data_blocks, i_reserved_meta_blocks,
      i_allocated_meta_blocks, and what ext4_calc_metadata_amount keeps. */
  datatype Ei = Ei(data: int, meta: int, metaUsed: int, calcLen: nat, calcLast: nat)

  function SumOf(inodes: seq<Ei>): int {
    if inodes == [] then 0 else inodes[0].data + inodes[0].meta + SumOf(inodes[1..])
  }

  function SumData(inodes: seq<Ei>): int {
    if inodes == [] then 0 else inodes[0].data + SumData(inodes[1..])
  }

  lemma {:induction false} SumsChange(inodes: seq<Ei>, i: nat, e: Ei)
    requires i < |inodes|
    ensures SumOf(inodes[i := e]) == SumOf(inodes) + e.data + e.meta - inodes[i].data - inodes[i].meta
    ensures SumData(inodes[i := e]) == SumData(inodes) + e.data - inodes[i].data
  {
    var after := inodes[i := e];
    if i == 0 {
      assert after[1..] == inodes[1..];
    } else {
      assert after[1..] == inodes[1..][i - 1 := e];
      SumsChange(inodes[1..], i - 1, e);
    }
  }

  lemma {:induction false} SumsOfNothing(inodes: seq<Ei>)
    requires forall i :: 0 <= i < |inodes| ==> inodes[i].data == 0 && inodes[i].meta == 0
    ensures SumOf(inodes) == 0 && SumData(inodes) == 0
  {
    if inodes != [] {
      SumsOfNothing(inodes[1..]);
    }
  }

  /** s_dirtyclusters_counter, the blocks of quota that are reserved, and the inodes. */
  datatype State = State(dirty: int, quota: int, inodes: seq<Ei>)

  /** Nothing is reserved that is not counted, nothing counted that is not reserved,
      and no reservation is negative. */
  ghost predicate Conserved(s: State) {
    && s.dirty == SumOf(s.inodes) && s.quota == SumData(s.inodes)
    && forall i :: 0 <= i < |s.inodes| ==> Positive(s.inodes[i])
  }

  predicate Positive(e: Ei) {
    0 <= e.data && 0 <= e.meta && 0 <= e.metaUsed
  }

  datatype Step =
    // needed and the calc fields come from ext4_calc_metadata_amount; claimed tells
    // whether ext4_claim_free_clusters finds the space
    | Reserve(i: nat, quotaOk: bool, needed: nat, calcLen: nat, calcLast: nat, claimed: bool)
    | ReserveMeta(i: nat, needed: nat, calcLen: nat, calcLast: nat, claimed: bool)
    | Release(i: nat, toFree: nat)
    | Update(i: nat, used: nat)
    | UseMeta(i: nat, blocks: nat)     // the allocator takes metadata blocks for the inode

  function Min(a: int, b: int): int {
    if a < b then a else b
  }

  /** An inode without reserved data blocks gives its metadata blocks back. */
  function Settled(s: State, i: nat): State
    requires i < |s.inodes|
  {
    var e := s.inodes[i];
    if e.data == 0 then s.(dirty := s.dirty - e.meta, inodes := s.inodes[i := e.(meta := 0, calcLen := 0)]) else s
  }

  function Moved(s: State, i: nat, dirty: int, quota: int, e: Ei): State
    requires i < |s.inodes|
  {
    State(s.dirty + dirty, s.quota + quota, s.inodes[i := e])
  }

  function Apply(s: State, step: Step): (after: State)
    requires step.i < |s.inodes|
    ensures |after.inodes| == |s.inodes|
    ensures forall j :: 0 <= j < |s.inodes| && j != step.i ==> after.inodes[j] == s.inodes[j]
  {
    var e := s.inodes[step.i];
    match step
    case Reserve(i, quotaOk, needed, calcLen, calcLast, claimed) =>
      if !quotaOk || !claimed then s
      else Moved(s, i, needed + 1, 1, Ei(e.data + 1, e.meta + needed, e.metaUsed, calcLen, calcLast))
    case ReserveMeta(i, needed, calcLen, calcLast, claimed) =>
      if !claimed then s
      else Moved(s, i, needed, 0, e.(meta := e.meta + needed, calcLen := calcLen, calcLast := calcLast))
    case Release(i, toFree) =>
      var n := Min(toFree, e.data);
      if toFree == 0 then s else Settled(Moved(s, i, -n, -n, e.(data := e.data - n)), i)
    case Update(i, used) =>
      var n, m := Min(used, e.data), Min(e.metaUsed, e.meta);
      Settled(Moved(s, i, -(n + m), -n, e.(data := e.data - n, meta := e.meta - m, metaUsed := 0)), i)
    case UseMeta(i, blocks) => Moved(s, i, 0, 0, e.(metaUsed := e.metaUsed + blocks))
  }

  /** struct ext4_sb_info and the inodes of the file system. */
  class FileSystem {
    var dirty: int                // s_dirtyclusters_counter
    var quota: int                // reserved by dquot_reserve_block
    var inodes: seq<Ei>

    constructor (n: nat)
      ensures Conserved(View()) && |inodes| == n
    {
      dirty, quota, inodes := 0, 0, seq(n, i => Ei(0, 0, 0, 0, 0));
      new;
      SumsOfNothing(inodes);
    }

    function View(): State
      reads this
    {
      State(dirty, quota, inodes)
    }

    /** ext4_claim_free_clusters, when there is space and when there is not. */
    method Claim(n: nat, space: bool) returns (ok: bool)
      modifies this`dirty
      ensures ok == space && dirty == old(dirty) + if ok then n else 0
    {
      if space {
        dirty := dirty + n;
      }
      return space;
    }

    /** ext4_da_reserve_space: a failure to claim the space undoes what the calculation
        of the metadata blocks changed, and the quota. */
    method ReserveSpace(i: nat, quotaOk: bool, space: bool, needed: nat, calcLen: nat, calcLast: nat) returns (ok: bool)
      requires i < |inodes|
      modifies this
      ensures View() == Apply(old(View()), Reserve(i, quotaOk, needed, calcLen, calcLast, ok))
      ensures ok <==> quotaOk && space
      ensures dirty == old(dirty) + (if ok then needed + 1 else 0) && quota == old(quota) + if ok then 1 else 0
      ensures inodes == if ok then old(inodes)[i := old(inodes[i]).(data := old(inodes[i].data) + 1,
                                                                    meta := old(inodes[i].meta) + needed,
                                                                    calcLen := calcLen, calcLast := calcLast)]
                        else old(inodes)
    {
      if !quotaOk {
        return false;
      }
      quota := quota + 1;
      var saveLen, saveLast := inodes[i].calcLen, inodes[i].calcLast;
      inodes := inodes[i := inodes[i].(calcLen := calcLen, calcLast := calcLast)];
      ok := Claim(needed + 1, space);
      if !ok {
        inodes := inodes[i := inodes[i].(calcLen := saveLen, calcLast := saveLast)];
        quota := quota - 1;
        return;
      }
      inodes := inodes[i := inodes[i].(data := inodes[i].data + 1)];
      inodes := inodes[i := inodes[i].(meta := inodes[i].meta + needed)];
    }

    /** ext4_da_reserve_metadata. */
    method ReserveMetadata(i: nat, space: bool, needed: nat, calcLen: nat, calcLast: nat) returns (ok: bool)
      requires i < |inodes|
      modifies this
      ensures View() == Apply(old(View()), ReserveMeta(i, needed, calcLen, calcLast, ok))
      ensures ok == space && dirty == old(dirty) + (if ok then needed else 0) && quota == old(quota)
      ensures inodes == if ok then old(inodes)[i := old(inodes[i]).(meta := old(inodes[i].meta) + needed,
                                                                    calcLen := calcLen, calcLast := calcLast)]
                        else old(inodes)
    {
      var saveLen, saveLast := inodes[i].calcLen, inodes[i].calcLast;
      inodes := inodes[i := inodes[i].(calcLen := calcLen, calcLast := calcLast)];
      ok := Claim(needed, space);
      if !ok {
        inodes := inodes[i := inodes[i].(calcLen := saveLen, calcLast := saveLast)];
        return;
      }
      inodes := inodes[i := inodes[i].(meta := inodes[i].meta + needed)];
    }

    /** ext4_da_release_space. */
    method ReleaseSpace(i: nat, toFree0: nat)
      requires i < |inodes|
      modifies this
      ensures View() == Apply(old(View()), Release(i, toFree0))
      ensures var e := old(inodes[i]);
              if toFree0 == 0 then dirty == old(dirty) && quota == old(quota) && inodes == old(inodes)
              else if toFree0 < e.data then
                && dirty == old(dirty) - toFree0 && quota == old(quota) - toFree0
                && inodes == old(inodes)[i := e.(data := e.data - toFree0)]
              else
                && dirty == old(dirty) - e.data - e.meta && quota == old(quota) - e.data
                && inodes == old(inodes)[i := e.(data := 0, meta := 0, calcLen := 0)]
    {
      var toFree: int := toFree0;
      if toFree == 0 {
        return;
      }
      if toFree > inodes[i].data {
        toFree := inodes[i].data;
      }
      inodes := inodes[i := inodes[i].(data := inodes[i].data - toFree)];
      if inodes[i].data == 0 {
        dirty := dirty - inodes[i].meta;
        inodes := inodes[i := inodes[i].(meta := 0, calcLen := 0)];
      }
      dirty := dirty - toFree;
      quota := quota - toFree;
    }

    /** ext4_da_update_reserve_space: the quota of what is used is claimed or given back,
        and in either case no longer reserved. */
    method UpdateReserveSpace(i: nat, used0: nat)
      requires i < |inodes|
      modifies this
      ensures View() == Apply(old(View()), Update(i, used0))
      ensures var e := old(inodes[i]);
              var metaUsed := if e.metaUsed > e.meta then e.meta else e.metaUsed;
              if used0 < e.data then
                && dirty == old(dirty) - used0 - metaUsed && quota == old(quota) - used0
                && inodes == old(inodes)[i := e.(data := e.data - used0, meta := e.meta - metaUsed, metaUsed := 0)]
              else
                && dirty == old(dirty) - e.data - e.meta && quota == old(quota) - e.data
                && inodes == old(inodes)[i := e.(data := 0, meta := 0, metaUsed := 0, calcLen := 0)]
    {
      var used: int := used0;
      if used > inodes[i].data {
        used := inodes[i].data;
      }
      if inodes[i].metaUsed > inodes[i].meta {
        inodes := inodes[i := inodes[i].(metaUsed := inodes[i].meta)];
      }
      inodes := inodes[i := inodes[i].(data := inodes[i].data - used)];
      inodes := inodes[i := inodes[i].(meta := inodes[i].meta - inodes[i].metaUsed)];
      dirty := dirty - (used + inodes[i].metaUsed);
      inodes := inodes[i := inodes[i].(metaUsed := 0)];
      if inodes[i].data == 0 {
        dirty := dirty - inodes[i].meta;
        inodes := inodes[i := inodes[i].(meta := 0, calcLen := 0)];
      }
      quota := quota - used;
    }
  }

  // ------------------------------------------------------------------------------ runs

  lemma MovedConserves(s: State, i: nat, dirty: int, quota: int, e: Ei)
    requires Conserved(s) && i < |s.inodes| && Positive(e)
    requires dirty == e.data + e.meta - s.inodes[i].data - s.inodes[i].meta
    requires quota == e.data - s.inodes[i].data
    ensures Conserved(Moved(s, i, dirty, quota, e))
  {
    SumsChange(s.inodes, i, e);
  }

  lemma SettledConserves(s: State, i: nat)
    requires Conserved(s) && i < |s.inodes|
    ensures Conserved(Settled(s, i))
  {
    SumsChange(s.inodes, i, s.inodes[i].(meta := 0, calcLen := 0));
  }

  /** What a step does to the inode, the counters follow. */
  lemma TakeConserves(s: State, step: Step)
    requires Conserved(s) && step.i < |s.inodes| && (step.Release? || step.Update?)
    ensures Conserved(Apply(s, step))
  {
    var i, e := step.i, s.inodes[step.i];
    assert Positive(e);
    var n := Min(if step.Release? then step.toFree else step.used, e.data);
    var m := if step.Release? then 0 else Min(e.metaUsed, e.meta);
    var after := Ei(e.data - n, e.meta - m, if step.Release? then e.metaUsed else 0, e.calcLen, e.calcLast);
    MovedConserves(s, i, -(n + m), -n, after);
    SettledConserves(Moved(s, i, -(n + m), -n, after), i);
  }

  /** Every step keeps the counters equal to the sums: those that clamp what they are
      asked for, and those that fail. */
  lemma StepConserves(s: State, step: Step)
    requires Conserved(s) && step.i < |s.inodes|
    ensures Conserved(Apply(s, step))
  {
    var e := s.inodes[step.i];
    assert Positive(e);
    match step
    case Reserve(i, quotaOk, needed, calcLen, calcLast, claimed) =>
      MovedConserves(s, i, needed + 1, 1, Ei(e.data + 1, e.meta + needed, e.metaUsed, calcLen, calcLast));
    case ReserveMeta(i, needed, calcLen, calcLast, claimed) =>
      MovedConserves(s, i, needed, 0, e.(meta := e.meta + needed, calcLen := calcLen, calcLast := calcLast));
    case Release(_, _) => TakeConserves(s, step);
    case Update(_, _) => TakeConserves(s, step);
    case UseMeta(i, blocks) =>
      MovedConserves(s, i, 0, 0, e.(metaUsed := e.metaUsed + blocks));
  }

  /** A release and an update take what is asked for or all there is, whichever is less;
      with the last data block go all metadata blocks, else those that were used. */
  lemma TakesWhatThereIs(s: State, step: Step)
    requires Conserved(s) && step.i < |s.inodes|
    requires step.Update? || (step.Release? && step.toFree > 0)
    ensures var asked := if step.Update? then step.used else step.toFree;
            var e, after := s.inodes[step.i], Apply(s, step).inodes[step.i];
            && (asked >= e.data ==> after.data == 0 && after.meta == 0)
            && (asked < e.data ==> after.data == e.data - asked)
            && (asked < e.data && step.Release? ==> after.meta == e.meta)
            && (asked < e.data && step.Update? ==> after.meta == if e.metaUsed >= e.meta then 0 else e.meta - e.metaUsed)
  {
    assert Positive(s.inodes[step.i]);
  }

  ghost predicate Feasible(n: nat, steps: seq<Step>) {
    forall k :: 0 <= k < |steps| ==> steps[k].i < n
  }

  function After(s: State, steps: seq<Step>): State
    requires Feasible(|s.inodes|, steps)
    decreases |steps|
  {
    if steps == [] then s else After(Apply(s, steps[0]), steps[1..])
  }

  /** Over any run, on any inodes, the counters are the sums of the reservations. */
  lemma {:induction false} RunConserves(s: State, steps: seq<Step>)
    requires Conserved(s) && Feasible(|s.inodes|, steps)
    ensures Conserved(After(s, steps))
    decreases |steps|
  {
    if steps != [] {
      StepConserves(s, steps[0]);
      RunConserves(Apply(s, steps[0]), steps[1..]);
    }
  }

  /** So the counter is at zero exactly while no inode has anything reserved. */
  lemma {:induction false} AllUsedIsClean(s: State)
    requires Conserved(s)
    ensures s.dirty == 0 <==> forall i :: 0 <= i < |s.inodes| ==> s.inodes[i].data == 0 && s.inodes[i].meta == 0
  {
    if forall i :: 0 <= i < |s.inodes| ==> s.inodes[i].data == 0 && s.inodes[i].meta == 0 {
      SumsOfNothing(s.inodes);
    } else {
      var i :| 0 <= i < |s.inodes| && !(s.inodes[i].data == 0 && s.inodes[i].meta == 0);
      assert Positive(s.inodes[i]);
      SomethingReserved(s.inodes, i);
    }
  }

  lemma {:induction false} SomethingReserved(inodes: seq<Ei>, i: nat)
    requires i < |inodes| && forall k :: 0 <= k < |inodes| ==> Positive(inodes[k])
    ensures inodes[i].data + inodes[i].meta <= SumOf(inodes)
  {
    assert Positive(inodes[0]);
    if i > 0 {
      SomethingReserved(inodes[1..], i - 1);
    } else if |inodes| > 1 {
      SomethingReserved(inodes[1..], 0);
      assert Positive(inodes[1]);
    }
  }
}
