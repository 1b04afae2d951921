/**
 * Host gather of the ogs library (libs/ogs/src/hostGather.cpp).
 *
 * `hostGatherKernel_T_OP` reduces every group of local entries into one
 * gathered cell per (vector, group, component); `hostGatherKernel`
 * dispatches on the (type, operator) pair; `hostGather` runs the halo
 * groups into the staging buffer, hands it to the inter-rank exchange,
 * copies the owned halo results into the gathered buffer and finally
 * gathers the rank-local groups.
 */
module HostGather {
  import opened OgsLayout

  /** No slot of the shape writes cell c. */
  ghost predicate Untouched(count: nat, sh: Shape, gstride: int, c: int) {
    forall m, gid, k | InShape(count, sh, m, gid, k) :: Cell(sh, gstride, m, gid, k) != c
  }

  /** No slot visited after (m, gid, k) writes the same cell: its value is
      the one left in the output. */
  ghost predicate LastWriter(count: nat, sh: Shape, gstride: int, m: int, gid: int, k: int) {
    forall m', gid', k' | InShape(count, sh, m', gid', k') && Flat(count, sh, m, gid, k) < Flat(count, sh, m', gid', k') ::
      Cell(sh, gstride, m', gid', k') != Cell(sh, gstride, m, gid, k)
  }

  /** The fold of one group over one component, as the kernel's inner loop
      computes it. */
  method FoldGroup<T>(red: Reducer<T>, gr: Groups, sh: Shape, stride: int, q: seq<T>, m: int, gid: int, k: int)
    returns (acc: T)
    requires GroupReadable(gr, sh, stride, |q|, m, gid, k)
    ensures acc == GatherValue(red, gr, sh, stride, q, m, gid, k)
    ensures gr.starts[gid] >= gr.starts[gid + 1] ==> acc == red.init
  {
    var start, end := gr.starts[gid], gr.starts[gid + 1];
    acc := red.init;
    var n := start;
    while n < end
      invariant n == start || start < n <= end
      invariant acc == GroupFold(red, gr, sh, stride, q, m, k, start, n)
    {
      var id := gr.ids[n];
      acc := red.combine(acc, q[Cell(sh, stride, m, id, k)]);
      n := n + 1;
    }
  }

  /** Every cell that no slot before flat index g writes still holds its
      value from the input. */
  ghost predicate GatherKeptBelow<T>(count: nat, sh: Shape, gstride: int, gatherq: seq<T>, r: seq<T>, g: int)
    requires |r| == |gatherq|
  {
    forall c | 0 <= c < |r| &&
        (forall m, gid, k | InShape(count, sh, m, gid, k) && Flat(count, sh, m, gid, k) < g ::
           Cell(sh, gstride, m, gid, k) != c) ::
      r[c] == gatherq[c]
  }

  /** Every slot before flat index g whose cell no later slot before g
      writes again holds its group's fold. */
  ghost predicate FoldedBelow<T>(red: Reducer<T>, gr: Groups, sh: Shape, stride: int, gstride: int,
                                 q: seq<T>, r: seq<T>, g: int)
    requires KernelSafe(gr, sh, stride, |q|, gstride, |r|)
  {
    forall m, gid, k | InShape(gr.count, sh, m, gid, k) && Flat(gr.count, sh, m, gid, k) < g &&
        (forall m', gid', k' | InShape(gr.count, sh, m', gid', k') &&
           Flat(gr.count, sh, m, gid, k) < Flat(gr.count, sh, m', gid', k') < g ::
           Cell(sh, gstride, m', gid', k') != Cell(sh, gstride, m, gid, k)) ::
      r[Cell(sh, gstride, m, gid, k)] == GatherValue(red, gr, sh, stride, q, m, gid, k)
  }

  /** One iteration of the kernel, writing the fold of slot s = Split(g) to
      its cell, extends both invariants from g to g + 1. */
  lemma GatherStep<T>(red: Reducer<T>, gr: Groups, sh: Shape, stride: int, gstride: int,
                      q: seq<T>, gatherq: seq<T>, before: seq<T>, r: seq<T>, g: int, s: Slot)
    requires KernelSafe(gr, sh, stride, |q|, gstride, |gatherq|) && |before| == |gatherq|
    requires gr.count * sh.entries > 0 && s == Split(gr.count, sh, g)
    requires InShape(gr.count, sh, s.m, s.gid, s.k) && Flat(gr.count, sh, s.m, s.gid, s.k) == g
    requires r == before[Cell(sh, gstride, s.m, s.gid, s.k) := GatherValue(red, gr, sh, stride, q, s.m, s.gid, s.k)]
    requires GatherKeptBelow(gr.count, sh, gstride, gatherq, before, g)
    requires FoldedBelow(red, gr, sh, stride, gstride, q, before, g)
    ensures GatherKeptBelow(gr.count, sh, gstride, gatherq, r, g + 1)
    ensures FoldedBelow(red, gr, sh, stride, gstride, q, r, g + 1)
  {
    forall m, gid, k | InShape(gr.count, sh, m, gid, k) && Flat(gr.count, sh, m, gid, k) < g + 1 &&
        (forall m', gid', k' | InShape(gr.count, sh, m', gid', k') &&
           Flat(gr.count, sh, m, gid, k) < Flat(gr.count, sh, m', gid', k') < g + 1 ::
           Cell(sh, gstride, m', gid', k') != Cell(sh, gstride, m, gid, k))
      ensures r[Cell(sh, gstride, m, gid, k)] == GatherValue(red, gr, sh, stride, q, m, gid, k)
    {
      SplitFlat(gr.count, sh, m, gid, k);
      if Flat(gr.count, sh, m, gid, k) == g {
        assert Slot(m, gid, k) == s;
      } else {
        assert Cell(sh, gstride, s.m, s.gid, s.k) != Cell(sh, gstride, m, gid, k);
      }
    }
  }

  /** `hostGatherKernel_T_OP`: the flat loop over g < Ngather*Nentries*Nvectors. */
  method GatherKernel<T>(red: Reducer<T>, gr: Groups, sh: Shape, stride: int, gstride: int,
                         q: seq<T>, gatherq: seq<T>) returns (r: seq<T>)
    requires KernelSafe(gr, sh, stride, |q|, gstride, |gatherq|)
    ensures |r| == |gatherq|
    ensures forall m, gid, k | InShape(gr.count, sh, m, gid, k) && LastWriter(gr.count, sh, gstride, m, gid, k) ::
      r[Cell(sh, gstride, m, gid, k)] == GatherValue(red, gr, sh, stride, q, m, gid, k)
    ensures Separated(gr.count, sh, gstride) ==>
      forall m, gid, k | InShape(gr.count, sh, m, gid, k) ::
        r[Cell(sh, gstride, m, gid, k)] == GatherValue(red, gr, sh, stride, q, m, gid, k)
    ensures Separated(gr.count, sh, gstride) ==>
      forall m, gid, k | InShape(gr.count, sh, m, gid, k) && gr.starts[gid] >= gr.starts[gid + 1] ::
        r[Cell(sh, gstride, m, gid, k)] == red.init
    ensures forall c | 0 <= c < |r| && Untouched(gr.count, sh, gstride, c) :: r[c] == gatherq[c]
  {
    var count := gr.count;
    var total := count * sh.entries * sh.vectors;
    r := gatherq;
    var g := 0;
    FlatNonnegative(count, sh);
    while g < total
      invariant 0 <= g <= total
      invariant |r| == |gatherq|
      invariant GatherKeptBelow(count, sh, gstride, gatherq, r, g)
      invariant FoldedBelow(red, gr, sh, stride, gstride, q, r, g)
    {
      FlatSplit(count, sh, g);
      var s := Split(count, sh, g);
      var acc := FoldGroup(red, gr, sh, stride, q, s.m, s.gid, s.k);
      ghost var before := r;
      r := r[Cell(sh, gstride, s.m, s.gid, s.k) := acc];
      GatherStep(red, gr, sh, stride, gstride, q, gatherq, before, r, g, s);
      g := g + 1;
    }
    forall m, gid, k | InShape(count, sh, m, gid, k)
      ensures Flat(count, sh, m, gid, k) < g
    {
      SplitFlat(count, sh, m, gid, k);
    }
    if Separated(count, sh, gstride) {
      forall m, gid, k | InShape(count, sh, m, gid, k)
        ensures LastWriter(count, sh, gstride, m, gid, k)
      {
        forall m', gid', k' | InShape(count, sh, m', gid', k') && Flat(count, sh, m, gid, k) < Flat(count, sh, m', gid', k')
          ensures Cell(sh, gstride, m', gid', k') != Cell(sh, gstride, m, gid, k)
        {
          if Cell(sh, gstride, m', gid', k') == Cell(sh, gstride, m, gid, k) {
            SeparatedInjective(count, sh, gstride, m, gid, k, m', gid', k');
          }
        }
      }
    }
  }

  /** `hostGatherKernel`: a (type, op) pair outside the enumerated cases
      leaves the output alone; otherwise the kernel of that pair runs with
      the pair's reducer. */
  method GatherDispatch<T>(ty: TypeTag, op: OpTag, table: (nat, nat) -> Reducer<T>,
                           gr: Groups, sh: Shape, stride: int, gstride: int,
                           v: seq<T>, gv: seq<T>) returns (r: seq<T>)
    requires Dispatches(ty, op) ==> KernelSafe(gr, sh, stride, |v|, gstride, |gv|)
    ensures |r| == |gv|
    ensures !Dispatches(ty, op) ==> r == gv
    ensures Dispatches(ty, op) && Separated(gr.count, sh, gstride) ==>
      forall m, gid, k | InShape(gr.count, sh, m, gid, k) ::
        r[Cell(sh, gstride, m, gid, k)] == GatherValue(table(ty.index, op.index), gr, sh, stride, v, m, gid, k)
    ensures forall c | 0 <= c < |r| && Untouched(gr.count, sh, gstride, c) :: r[c] == gv[c]
  {
    match (ty, op)
    case (ListedType(t), ListedOp(o)) =>
      r := GatherKernel(table(t, o), gr, sh, stride, gstride, v, gv);
    case _ =>
      r := gv;
  }

  /** Where `hostGather` puts element j of the owned halo results of vector
      i in the gathered buffer (block start `NlocalGather*Nentries + gstride*i`). */
  function GatherOwnedIndex(plan: Plan, sh: Shape, gstride: int, i: int, j: int): int {
    BlockAt(plan.local.count * sh.entries, gstride, i, j)
  }

  /** Each vector of the gathered buffer has room for its local groups
      followed by its owned halo groups. */
  predicate GatheredSeparated(plan: Plan, sh: Shape, gstride: int) {
    sh.vectors <= 1 || (plan.local.count + plan.ownedHalo) * sh.entries <= gstride
  }

  /** Under GatheredSeparated, no local group cell falls in an owned-halo
      block. */
  lemma {:induction false} OwnedNotLocal(plan: Plan, sh: Shape, gstride: int, i: int, j: int)
    requires GatheredSeparated(plan, sh, gstride)
    requires 0 <= i < sh.vectors && 0 <= j < plan.ownedHalo * sh.entries
    ensures Untouched(plan.local.count, sh, gstride, GatherOwnedIndex(plan, sh, gstride, i, j))
  {
    var L, E := plan.local.count, sh.entries;
    forall m, gid, k | InShape(L, sh, m, gid, k)
      ensures Cell(sh, gstride, m, gid, k) != GatherOwnedIndex(plan, sh, gstride, i, j)
    {
      InnerSplit(L, sh, gid, k);
      if m < i {
        MulAtLeast(i - m, gstride);
        assert gstride * i - m * gstride == gstride * (i - m);
        assert L * E <= (L + plan.ownedHalo) * E;
      } else if m > i {
        MulAtLeast(m - i, gstride);
        assert m * gstride - gstride * i == gstride * (m - i);
        assert plan.ownedHalo * E + L * E == (L + plan.ownedHalo) * E;
      } else {
        assert m * gstride == gstride * i;
      }
    }
  }

  /** Under GatheredSeparated, the owned-halo blocks of distinct vectors do
      not overlap. */
  lemma OwnedBlocksApart(plan: Plan, sh: Shape, gstride: int)
    requires GatheredSeparated(plan, sh, gstride)
    ensures BlocksApart(plan.ownedHalo * sh.entries, gstride, sh.vectors)
  {
    assert plan.ownedHalo * sh.entries <= (plan.local.count + plan.ownedHalo) * sh.entries;
  }

  /** `hostGather`: halo groups into the staging buffer (vector stride
      `NhaloGather`), the exchange, the owned-halo copy into the gathered
      buffer, then the local groups (vector stride `gstride`). Each stage
      runs only when its count is non-zero. `staged` is the staging buffer
      as handed to the exchange and `bufOut` what the exchange leaves. */
  method Gather<T(!new)>(gv: seq<T>, v: seq<T>, sh: Shape, gstride: int, stride: int,
                         ty: TypeTag, op: OpTag, table: (nat, nat) -> Reducer<T>,
                         plan: Plan, hostBuf: seq<T>, exchange: seq<T> -> seq<T>)
    returns (gvOut: seq<T>, staged: seq<T>, bufOut: seq<T>)
    requires LengthPreserving(exchange)
    requires plan.halo.count != 0 && Dispatches(ty, op) ==>
      KernelSafe(plan.halo, sh, stride, |v|, plan.halo.count, |hostBuf|)
    requires plan.ownedHalo != 0 ==>
      BlocksFit(plan.local.count * sh.entries, gstride, |gv|, 0, plan.halo.count * sh.entries, |hostBuf|,
                plan.ownedHalo * sh.entries, sh.vectors)
    requires plan.local.count != 0 && Dispatches(ty, op) ==>
      KernelSafe(plan.local, sh, stride, |v|, gstride, |gv|)
    ensures |gvOut| == |gv| && |staged| == |hostBuf| && bufOut == exchange(staged)
    // stage 1: halo groups, skipped when there are none
    ensures plan.halo.count == 0 || !Dispatches(ty, op) ==> staged == hostBuf
    ensures plan.halo.count != 0 && Dispatches(ty, op) && Separated(plan.halo.count, sh, plan.halo.count) ==>
      forall m, gid, k | InShape(plan.halo.count, sh, m, gid, k) ::
        staged[Cell(sh, plan.halo.count, m, gid, k)] ==
          GatherValue(table(ty.index, op.index), plan.halo, sh, stride, v, m, gid, k)
    // stage 3: owned halo results follow the local slots of every vector
    ensures plan.ownedHalo != 0 && GatheredSeparated(plan, sh, gstride) ==>
      forall i, j | 0 <= i < sh.vectors && 0 <= j < plan.ownedHalo * sh.entries ::
        gvOut[GatherOwnedIndex(plan, sh, gstride, i, j)] == bufOut[HaloBlockIndex(plan, sh, i, j)]
    // stage 4: local groups from slot 0 of every vector
    ensures plan.local.count != 0 && Dispatches(ty, op) && Separated(plan.local.count, sh, gstride) ==>
      forall m, gid, k | InShape(plan.local.count, sh, m, gid, k) ::
        gvOut[Cell(sh, gstride, m, gid, k)] ==
          GatherValue(table(ty.index, op.index), plan.local, sh, stride, v, m, gid, k)
    // only local group cells and owned-halo blocks can change
    ensures forall c | 0 <= c < |gv| && Untouched(plan.local.count, sh, gstride, c) &&
        OutsideBlocks(plan.local.count * sh.entries, gstride, plan.ownedHalo * sh.entries, sh.vectors, c) ::
      gvOut[c] == gv[c]
  {
    staged := hostBuf;
    if plan.halo.count != 0 {
      staged := GatherDispatch(ty, op, table, plan.halo, sh, stride, plan.halo.count, v, hostBuf);
    }
    bufOut := exchange(staged);
    var out := gv;
    if plan.ownedHalo != 0 {
      out := CopyBlocks(gv, plan.local.count * sh.entries, gstride, bufOut, 0, plan.halo.count * sh.entries,
                        plan.ownedHalo * sh.entries, sh.vectors);
      if GatheredSeparated(plan, sh, gstride) {
        OwnedBlocksApart(plan, sh, gstride);
      }
    }
    if plan.local.count != 0 {
      out := GatherDispatch(ty, op, table, plan.local, sh, stride, gstride, v, out);
    }
    gvOut := out;
    if plan.ownedHalo != 0 && GatheredSeparated(plan, sh, gstride) {
      forall i, j | 0 <= i < sh.vectors && 0 <= j < plan.ownedHalo * sh.entries
        ensures gvOut[GatherOwnedIndex(plan, sh, gstride, i, j)] == bufOut[HaloBlockIndex(plan, sh, i, j)]
      {
        OwnedNotLocal(plan, sh, gstride, i, j);
      }
    }
  }
}
