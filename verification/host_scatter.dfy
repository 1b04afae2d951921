/**
 * Host scatter of the ogs library (libs/ogs/src/hostScatter.cpp).
 *
 * `hostScatterKernel_T` writes the value of every (vector, group,
 * component) cell of the gathered buffer to each member of the group;
 * `hostScatterKernel` dispatches on the element type only; `hostScatter`
 * scatters the rank-local groups, copies the owned halo values into the
 * staging buffer, hands it to the inter-rank exchange and scatters the halo
 * groups from what comes back.
 */
module HostScatter {
  import opened OgsLayout
  import HostGather

  /** Member position n of group gid writes cell c (component k, vector m). */
  predicate Writes(gr: Groups, sh: Shape, stride: int, m: int, gid: int, k: int, n: int, c: int) {
    InGroup(gr, gid, n) && Cell(sh, stride, m, gr.ids[n], k) == c
  }

  /** No member write of any slot reaches cell c. */
  ghost predicate NoMemberWrites(gr: Groups, sh: Shape, stride: int, c: int) {
    forall m, gid, k, n | InShape(gr.count, sh, m, gid, k) :: !Writes(gr, sh, stride, m, gid, k, n, c)
  }

  /** Cell c is written by slot (m, gid, k) only: every other slot leaves it
      alone, so the kernel's order of visits does not matter for it. */
  ghost predicate OwnedBy(gr: Groups, sh: Shape, stride: int, m: int, gid: int, k: int, c: int) {
    forall m', gid', k', n' | InShape(gr.count, sh, m', gid', k') && Slot(m', gid', k') != Slot(m, gid, k) ::
      !Writes(gr, sh, stride, m', gid', k', n', c)
  }

  /** Each local id belongs to at most one group. */
  ghost predicate OneGroupPerId(gr: Groups) {
    forall gid, n, gid', n' | InGroup(gr, gid, n) && InGroup(gr, gid', n') && gr.ids[n] == gr.ids[n'] ::
      gid == gid'
  }

  /** Every member id lies in [0, nIds). */
  ghost predicate IdsBelow(gr: Groups, nIds: nat) {
    forall gid, n | InGroup(gr, gid, n) :: 0 <= gr.ids[n] < nIds
  }

  /** The inner loop of the kernel: the value goes to every member of group
      gid (component k of vector m). */
  method Broadcast<T>(gr: Groups, sh: Shape, stride: int, m: int, gid: int, k: int, value: T, q: seq<T>)
    returns (r: seq<T>)
    requires GroupReadable(gr, sh, stride, |q|, m, gid, k)
    ensures |r| == |q|
    ensures forall n | InGroup(gr, gid, n) :: r[Cell(sh, stride, m, gr.ids[n], k)] == value
    ensures forall c | 0 <= c < |q| && (forall n | InGroup(gr, gid, n) :: Cell(sh, stride, m, gr.ids[n], k) != c) ::
      r[c] == q[c]
  {
    var start, end := gr.starts[gid], gr.starts[gid + 1];
    r := q;
    var n := start;
    while n < end
      invariant n == start || start < n <= end
      invariant |r| == |q|
      invariant forall n' | InGroup(gr, gid, n') && n' < n :: r[Cell(sh, stride, m, gr.ids[n'], k)] == value
      invariant forall c | 0 <= c < |q| &&
          (forall n' | InGroup(gr, gid, n') && n' < n :: Cell(sh, stride, m, gr.ids[n'], k) != c) ::
        r[c] == q[c]
    {
      var id := gr.ids[n];
      r := r[Cell(sh, stride, m, id, k) := value];
      n := n + 1;
    }
  }

  /** Every owned member cell of the slots visited before flat index g
      holds its group's gathered value. */
  ghost predicate ScatteredBelow<T>(gr: Groups, sh: Shape, stride: int, gstride: int,
                                    gatherq: seq<T>, r: seq<T>, g: int)
    requires KernelSafe(gr, sh, stride, |r|, gstride, |gatherq|)
  {
    forall m, gid, k, n | InShape(gr.count, sh, m, gid, k) && Flat(gr.count, sh, m, gid, k) < g &&
        InGroup(gr, gid, n) && OwnedBy(gr, sh, stride, m, gid, k, Cell(sh, stride, m, gr.ids[n], k)) ::
      r[Cell(sh, stride, m, gr.ids[n], k)] == gatherq[Cell(sh, gstride, m, gid, k)]
  }

  /** Every cell no slot visited before flat index g writes keeps its value. */
  ghost predicate KeptBelow<T>(gr: Groups, sh: Shape, stride: int, q: seq<T>, r: seq<T>, g: int)
    requires |r| == |q|
  {
    forall c | 0 <= c < |q| &&
        (forall m, gid, k, n | InShape(gr.count, sh, m, gid, k) && Flat(gr.count, sh, m, gid, k) < g ::
           !Writes(gr, sh, stride, m, gid, k, n, c)) ::
      r[c] == q[c]
  }

  /** What one broadcast of slot s leaves: its members hold the value, every
      other cell is unchanged. */
  ghost predicate Broadcasted<T>(gr: Groups, sh: Shape, stride: int, s: Slot, value: T,
                                 before: seq<T>, r: seq<T>)
    requires GroupReadable(gr, sh, stride, |r|, s.m, s.gid, s.k)
  {
    && |r| == |before|
    && (forall n | InGroup(gr, s.gid, n) :: r[Cell(sh, stride, s.m, gr.ids[n], s.k)] == value)
    && (forall c | 0 <= c < |before| && (forall n | InGroup(gr, s.gid, n) :: Cell(sh, stride, s.m, gr.ids[n], s.k) != c) ::
          r[c] == before[c])
  }

  /** Broadcasting slot g extends ScatteredBelow from g to g + 1. */
  lemma ScatterStep<T>(gr: Groups, sh: Shape, stride: int, gstride: int, gatherq: seq<T>,
                       before: seq<T>, r: seq<T>, g: int, s: Slot)
    requires KernelSafe(gr, sh, stride, |before|, gstride, |gatherq|) && |r| == |before|
    requires gr.count * sh.entries > 0 && s == Split(gr.count, sh, g)
    requires InShape(gr.count, sh, s.m, s.gid, s.k) && Flat(gr.count, sh, s.m, s.gid, s.k) == g
    requires ScatteredBelow(gr, sh, stride, gstride, gatherq, before, g)
    requires Broadcasted(gr, sh, stride, s, gatherq[Cell(sh, gstride, s.m, s.gid, s.k)], before, r)
    ensures ScatteredBelow(gr, sh, stride, gstride, gatherq, r, g + 1)
  {
    forall m, gid, k, n | InShape(gr.count, sh, m, gid, k) && Flat(gr.count, sh, m, gid, k) < g + 1 &&
        InGroup(gr, gid, n) && OwnedBy(gr, sh, stride, m, gid, k, Cell(sh, stride, m, gr.ids[n], k))
      ensures r[Cell(sh, stride, m, gr.ids[n], k)] == gatherq[Cell(sh, gstride, m, gid, k)]
    {
      SplitFlat(gr.count, sh, m, gid, k);
      var c := Cell(sh, stride, m, gr.ids[n], k);
      if Flat(gr.count, sh, m, gid, k) == g {
        assert Slot(m, gid, k) == s;
      } else {
        assert Slot(m, gid, k) != s;
        assert forall n' | InGroup(gr, s.gid, n') :: !Writes(gr, sh, stride, s.m, s.gid, s.k, n', c);
        assert r[c] == before[c];
      }
    }
  }

  /** Broadcasting slot g extends KeptBelow from g to g + 1. */
  lemma KeepStep<T>(gr: Groups, sh: Shape, stride: int, q: seq<T>, before: seq<T>, r: seq<T>,
                    g: int, s: Slot, value: T)
    requires |before| == |q| && GroupReadable(gr, sh, stride, |r|, s.m, s.gid, s.k)
    requires InShape(gr.count, sh, s.m, s.gid, s.k) && Flat(gr.count, sh, s.m, s.gid, s.k) == g
    requires KeptBelow(gr, sh, stride, q, before, g)
    requires Broadcasted(gr, sh, stride, s, value, before, r)
    ensures KeptBelow(gr, sh, stride, q, r, g + 1)
  {
    forall c | 0 <= c < |q| &&
        (forall m, gid, k, n | InShape(gr.count, sh, m, gid, k) && Flat(gr.count, sh, m, gid, k) < g + 1 ::
           !Writes(gr, sh, stride, m, gid, k, n, c))
      ensures r[c] == q[c]
    {
      assert forall n' | InGroup(gr, s.gid, n') :: !Writes(gr, sh, stride, s.m, s.gid, s.k, n', c);
    }
  }

  /** `hostScatterKernel_T`: the flat loop over g < Ngather*Nentries*Nvectors,
      each slot broadcasting its gathered cell to the members of its group. */
  method ScatterKernel<T>(gr: Groups, sh: Shape, gstride: int, stride: int, gatherq: seq<T>, q: seq<T>)
    returns (r: seq<T>)
    requires KernelSafe(gr, sh, stride, |q|, gstride, |gatherq|)
    ensures |r| == |q|
    ensures forall m, gid, k, n | InShape(gr.count, sh, m, gid, k) && InGroup(gr, gid, n) &&
        OwnedBy(gr, sh, stride, m, gid, k, Cell(sh, stride, m, gr.ids[n], k)) ::
      r[Cell(sh, stride, m, gr.ids[n], k)] == gatherq[Cell(sh, gstride, m, gid, k)]
    ensures forall c | 0 <= c < |q| && NoMemberWrites(gr, sh, stride, c) :: r[c] == q[c]
  {
    var count := gr.count;
    var total := count * sh.entries * sh.vectors;
    r := q;
    var g := 0;
    FlatNonnegative(count, sh);
    while g < total
      invariant 0 <= g <= total
      invariant |r| == |q|
      invariant ScatteredBelow(gr, sh, stride, gstride, gatherq, r, g)
      invariant KeptBelow(gr, sh, stride, q, r, g)
    {
      FlatSplit(count, sh, g);
      var s := Split(count, sh, g);
      var value := gatherq[Cell(sh, gstride, s.m, s.gid, s.k)];
      ghost var before := r;
      r := Broadcast(gr, sh, stride, s.m, s.gid, s.k, value, r);
      ScatterStep(gr, sh, stride, gstride, gatherq, before, r, g, s);
      KeepStep(gr, sh, stride, q, before, r, g, s, value);
      g := g + 1;
    }
    forall m, gid, k | InShape(count, sh, m, gid, k)
      ensures Flat(count, sh, m, gid, k) < g
    {
      SplitFlat(count, sh, m, gid, k);
    }
  }

  /** When ids are confined to [0, nIds), the local vectors are apart
      (Separated for nIds entries) and each id belongs to one group, every
      member cell is written by its own slot only. */
  lemma {:induction false} MembersOwned(gr: Groups, sh: Shape, stride: int, nIds: nat,
                                        m: int, gid: int, k: int, n: int)
    requires OneGroupPerId(gr) && IdsBelow(gr, nIds) && Separated(nIds, sh, stride)
    requires InShape(gr.count, sh, m, gid, k) && InGroup(gr, gid, n)
    ensures OwnedBy(gr, sh, stride, m, gid, k, Cell(sh, stride, m, gr.ids[n], k))
  {
    forall m', gid', k', n' | InShape(gr.count, sh, m', gid', k') && Slot(m', gid', k') != Slot(m, gid, k)
      ensures !Writes(gr, sh, stride, m', gid', k', n', Cell(sh, stride, m, gr.ids[n], k))
    {
      if InGroup(gr, gid', n') {
        if gr.ids[n'] == gr.ids[n] {
          assert gid' == gid;
        }
        SeparatedDistinct(nIds, sh, stride, m, gr.ids[n], k, m', gr.ids[n'], k');
      }
    }
  }

  /** Under the same conditions, all members of a group end up holding the
      same value: the gathered value of their group. */
  lemma {:induction false} MembersAgree<T>(gr: Groups, sh: Shape, gstride: int, stride: int, nIds: nat,
                                           gatherq: seq<T>, r: seq<T>, m: int, gid: int, k: int, n: int, n': int)
    requires OneGroupPerId(gr) && IdsBelow(gr, nIds) && Separated(nIds, sh, stride)
    requires InShape(gr.count, sh, m, gid, k) && InGroup(gr, gid, n) && InGroup(gr, gid, n')
    requires 0 <= Cell(sh, stride, m, gr.ids[n], k) < |r| && 0 <= Cell(sh, stride, m, gr.ids[n'], k) < |r|
    requires 0 <= Cell(sh, gstride, m, gid, k) < |gatherq|
    requires forall m, gid, k, n | InShape(gr.count, sh, m, gid, k) && InGroup(gr, gid, n) &&
        OwnedBy(gr, sh, stride, m, gid, k, Cell(sh, stride, m, gr.ids[n], k)) ::
      0 <= Cell(sh, stride, m, gr.ids[n], k) < |r| && 0 <= Cell(sh, gstride, m, gid, k) < |gatherq| &&
      r[Cell(sh, stride, m, gr.ids[n], k)] == gatherq[Cell(sh, gstride, m, gid, k)]
    ensures r[Cell(sh, stride, m, gr.ids[n], k)] == r[Cell(sh, stride, m, gr.ids[n'], k)]
  {
    MembersOwned(gr, sh, stride, nIds, m, gid, k, n);
    MembersOwned(gr, sh, stride, nIds, m, gid, k, n');
  }

  /** `hostScatterKernel`: the element type picks the kernel; the `ogs_type_n`
      end marker leaves the output alone. The operator is not consulted:
      nothing in this contract mentions it. */
  method ScatterDispatch<T>(ty: TypeTag, op: OpTag, gr: Groups, sh: Shape, gstride: int, stride: int,
                            gv: seq<T>, v: seq<T>) returns (r: seq<T>)
    requires ty.ListedType? ==> KernelSafe(gr, sh, stride, |v|, gstride, |gv|)
    ensures |r| == |v|
    ensures ty.TypeSentinel? ==> r == v
    ensures ty.ListedType? ==>
      forall m, gid, k, n | InShape(gr.count, sh, m, gid, k) && InGroup(gr, gid, n) &&
          OwnedBy(gr, sh, stride, m, gid, k, Cell(sh, stride, m, gr.ids[n], k)) ::
        r[Cell(sh, stride, m, gr.ids[n], k)] == gv[Cell(sh, gstride, m, gid, k)]
    ensures forall c | 0 <= c < |v| && NoMemberWrites(gr, sh, stride, c) :: r[c] == v[c]
  {
    match ty
    case ListedType(_) =>
      r := ScatterKernel(gr, sh, gstride, stride, gv, v);
    case TypeSentinel =>
      r := v;
  }

  /** Where `hostScatter` reads element j of the owned halo values of vector
      i in the gathered buffer (block start `NlocalGather + gstride*i`). */
  function ScatterOwnedIndex(plan: Plan, sh: Shape, gstride: int, i: int, j: int): int {
    BlockAt(plan.local.count, gstride, i, j)
  }

  /** `hostScatter`: the local groups (vector stride `gstride`), the
      owned-halo copy into the staging buffer, the exchange, then the halo
      groups from the exchanged buffer (vector stride `NhaloGather`). Each
      stage runs only when its count is non-zero. `staged` is the staging
      buffer as handed to the exchange and `bufOut` what the exchange leaves. */
  method Scatter<T(!new)>(v: seq<T>, gv: seq<T>, sh: Shape, stride: int, gstride: int,
                          ty: TypeTag, op: OpTag, plan: Plan, hostBuf: seq<T>, exchange: seq<T> -> seq<T>)
    returns (vOut: seq<T>, staged: seq<T>, bufOut: seq<T>)
    requires LengthPreserving(exchange)
    requires plan.local.count != 0 && ty.ListedType? ==> KernelSafe(plan.local, sh, stride, |v|, gstride, |gv|)
    requires plan.ownedHalo != 0 ==>
      BlocksFit(0, plan.halo.count * sh.entries, |hostBuf|, plan.local.count, gstride, |gv|,
                plan.ownedHalo * sh.entries, sh.vectors)
    requires plan.halo.count != 0 && ty.ListedType? ==>
      KernelSafe(plan.halo, sh, stride, |v|, plan.halo.count, |hostBuf|)
    ensures |vOut| == |v| && |staged| == |hostBuf| && bufOut == exchange(staged)
    // stage 2: owned halo values go to the head of each vector's staging block
    ensures plan.ownedHalo == 0 ==> staged == hostBuf
    ensures BlocksApart(plan.ownedHalo * sh.entries, plan.halo.count * sh.entries, sh.vectors) ==>
      forall i, j | 0 <= i < sh.vectors && 0 <= j < plan.ownedHalo * sh.entries ::
        staged[HaloBlockIndex(plan, sh, i, j)] == gv[ScatterOwnedIndex(plan, sh, gstride, i, j)]
    // stage 4: halo members take the exchanged values
    ensures plan.halo.count != 0 && ty.ListedType? ==>
      forall m, gid, k, n | InShape(plan.halo.count, sh, m, gid, k) && InGroup(plan.halo, gid, n) &&
          OwnedBy(plan.halo, sh, stride, m, gid, k, Cell(sh, stride, m, plan.halo.ids[n], k)) ::
        vOut[Cell(sh, stride, m, plan.halo.ids[n], k)] == bufOut[Cell(sh, plan.halo.count, m, gid, k)]
    // stage 1: local members keep their gathered value unless a halo member overwrites them
    ensures plan.local.count != 0 && ty.ListedType? ==>
      forall m, gid, k, n | InShape(plan.local.count, sh, m, gid, k) && InGroup(plan.local, gid, n) &&
          OwnedBy(plan.local, sh, stride, m, gid, k, Cell(sh, stride, m, plan.local.ids[n], k)) &&
          (plan.halo.count == 0 || NoMemberWrites(plan.halo, sh, stride, Cell(sh, stride, m, plan.local.ids[n], k))) ::
        vOut[Cell(sh, stride, m, plan.local.ids[n], k)] == gv[Cell(sh, gstride, m, gid, k)]
    // no other cell changes
    ensures forall c | 0 <= c < |v| && NoMemberWrites(plan.local, sh, stride, c) &&
        (plan.halo.count == 0 || NoMemberWrites(plan.halo, sh, stride, c)) ::
      vOut[c] == v[c]
  {
    var out := v;
    if plan.local.count != 0 {
      out := ScatterDispatch(ty, op, plan.local, sh, gstride, stride, gv, out);
    }
    staged := hostBuf;
    if plan.ownedHalo != 0 {
      staged := CopyBlocks(hostBuf, 0, plan.halo.count * sh.entries, gv, plan.local.count, gstride,
                           plan.ownedHalo * sh.entries, sh.vectors);
    }
    bufOut := exchange(staged);
    if plan.halo.count != 0 {
      out := ScatterDispatch(ty, op, plan.halo, sh, plan.halo.count, stride, bufOut, out);
    }
    vOut := out;
  }

  /** With one local group per id and vectors apart, gathering with the
      kernel and scattering the result back leaves every member holding the
      fold of its group's original values. */
  method GatherThenScatter<T>(red: Reducer<T>, gr: Groups, sh: Shape, stride: int, gstride: int, nIds: nat,
                              q: seq<T>, gatherq: seq<T>) returns (gq: seq<T>, r: seq<T>)
    requires KernelSafe(gr, sh, stride, |q|, gstride, |gatherq|)
    requires Separated(gr.count, sh, gstride)
    requires OneGroupPerId(gr) && IdsBelow(gr, nIds) && Separated(nIds, sh, stride)
    ensures |gq| == |gatherq| && |r| == |q|
    ensures forall m, gid, k, n | InShape(gr.count, sh, m, gid, k) && InGroup(gr, gid, n) ::
      r[Cell(sh, stride, m, gr.ids[n], k)] == GatherValue(red, gr, sh, stride, q, m, gid, k)
    ensures forall c | 0 <= c < |q| && NoMemberWrites(gr, sh, stride, c) :: r[c] == q[c]
  {
    gq := HostGather.GatherKernel(red, gr, sh, stride, gstride, q, gatherq);
    r := ScatterKernel(gr, sh, gstride, stride, gq, q);
    forall m, gid, k, n | InShape(gr.count, sh, m, gid, k) && InGroup(gr, gid, n)
      ensures r[Cell(sh, stride, m, gr.ids[n], k)] == GatherValue(red, gr, sh, stride, q, m, gid, k)
    {
      MembersOwned(gr, sh, stride, nIds, m, gid, k, n);
    }
  }

  /** hostScatter reads the owned halo block of vector i where hostGather
      wrote it exactly when `Nentries` is 1 (or there are no local groups):
      the scatter offset `NlocalGather` lacks the `Nentries` factor. */
  lemma OwnedOffsetsAgree(plan: Plan, sh: Shape, gstride: int, i: int, j: int)
    ensures HostGather.GatherOwnedIndex(plan, sh, gstride, i, j) == ScatterOwnedIndex(plan, sh, gstride, i, j)
      <==> plan.local.count == 0 || sh.entries == 1
  {
    assert HostGather.GatherOwnedIndex(plan, sh, gstride, i, j) - ScatterOwnedIndex(plan, sh, gstride, i, j)
      == plan.local.count * (sh.entries - 1);
  }

  /** The halo kernel stores slot (m, gid, k) with vector stride
      `NhaloGather`, while the owned-halo copies address vector m's block at
      `NhaloGather*Nentries*m`: the two agree exactly for vector 0, for no
      halo groups, or for `Nentries` = 1. */
  lemma HaloStrideAgree(plan: Plan, sh: Shape, m: int, gid: int, k: int)
    ensures Cell(sh, plan.halo.count, m, gid, k) == HaloBlockIndex(plan, sh, m, gid * sh.entries + k)
      <==> m == 0 || plan.halo.count == 0 || sh.entries == 1
  {
    assert HaloBlockIndex(plan, sh, m, gid * sh.entries + k) - Cell(sh, plan.halo.count, m, gid, k)
      == (m * plan.halo.count) * (sh.entries - 1);
    ProductZero(m * plan.halo.count, sh.entries - 1);
    ProductZero(m, plan.halo.count);
  }

  lemma ProductZero(x: int, y: int)
    ensures x * y == 0 <==> x == 0 || y == 0
  {
    if x != 0 && y != 0 {
      if x > 0 && y > 0 { MulPos(x, y); }
      assert x * y != 0 by {
        if x > 0 && y < 0 { assert x * (-y) > 0; }
        else if x < 0 && y > 0 { assert (-x) * y > 0; }
        else if x < 0 && y < 0 { assert (-x) * (-y) > 0; }
      }
    }
  }
}
