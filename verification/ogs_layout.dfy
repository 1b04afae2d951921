/**
 * Index arithmetic shared by the host gather and scatter kernels of the
 * ogs library (libs/ogs/src/hostGather.cpp, libs/ogs/src/hostScatter.cpp).
 *
 * A payload is a strided buffer holding `vectors` vectors; inside a vector,
 * every local entry (or gathered group) owns `entries` consecutive
 * components. Component k of entry id in vector m lives at
 * `k + id*entries + m*stride`. Groups are given in compressed-row form:
 * the members of group gid are `ids[starts[gid] .. starts[gid+1]-1]`.
 */
module OgsLayout {

  /** Groups in compressed-row form (`gatherStarts`/`gatherIds`). */
  datatype Groups = Groups(count: nat, starts: seq<int>, ids: seq<int>)

  /** The host side of a gather-scatter plan: the rank-local groups, the
      halo groups (`NhaloGather` of them) and how many halo groups this rank
      owns (`NownedHalo`). */
  datatype Plan = Plan(local: Groups, halo: Groups, ownedHalo: nat)

  /** `Nentries` components per entry, `Nvectors` vectors. */
  datatype Shape = Shape(entries: nat, vectors: nat)

  /** One iteration of a kernel's flat loop: vector m, group gid, component k. */
  datatype Slot = Slot(m: int, gid: int, k: int)

  /** The element type tag: one of the types the library enumerates, or the
      `ogs_type_n` end marker. */
  datatype TypeTag = ListedType(index: nat) | TypeSentinel

  /** The reduction tag: one of the enumerated operators, or `ogs_op_n`. */
  datatype OpTag = ListedOp(index: nat) | OpSentinel

  /** An operator of the (type, op) table: its identity and its step. */
  datatype Reducer<!T> = Reducer(init: T, combine: (T, T) -> T)

  /** Both tags name an enumerated case, so the gather dispatch runs a kernel. */
  predicate Dispatches(ty: TypeTag, op: OpTag) {
    ty.ListedType? && op.ListedOp?
  }

  /** Number of iterations of a kernel's flat loop. */
  function Total(count: nat, sh: Shape): nat {
    count * sh.entries * sh.vectors
  }

  predicate InShape(count: nat, sh: Shape, m: int, gid: int, k: int) {
    0 <= m < sh.vectors && 0 <= gid < count && 0 <= k < sh.entries
  }

  /** Address of component k of entry id in vector m. */
  function Cell(sh: Shape, stride: int, m: int, id: int, k: int): int {
    k + id * sh.entries + m * stride
  }

  /** The flat loop index of a slot. */
  function Flat(count: nat, sh: Shape, m: int, gid: int, k: int): int {
    m * (count * sh.entries) + gid * sh.entries + k
  }

  /** The kernels' decomposition of the flat index g into (m, gid, k). */
  function Split(count: nat, sh: Shape, g: int): Slot
    requires count * sh.entries > 0
  {
    var vid := g % (count * sh.entries);
    Slot(g / (count * sh.entries), vid / sh.entries, vid % sh.entries)
  }

  /** Euclidean division is determined by any quotient/remainder pair. */
  lemma DivModUnique(a: int, d: int, q: int, r: int)
    requires d > 0 && 0 <= r < d && a == q * d + r
    ensures a / d == q && a % d == r
  {
    var q', r' := a / d, a % d;
    assert (q' - q) * d == r - r';
    MulSmall(q' - q, d);
  }

  lemma MulSmall(x: int, d: int)
    requires d > 0 && -d < x * d < d
    ensures x == 0
  {
  }

  lemma PosProduct(x: int, y: int)
    requires x >= 0 && y >= 0 && x * y > 0
    ensures x > 0 && y > 0
  {
  }

  lemma MulLess(x: int, y: int, d: int)
    requires d > 0 && x * d < y * d
    ensures x < y
  {
    assert (y - x) * d > 0;
    MulPos(y - x, d);
  }

  lemma MulPos(x: int, d: int)
    requires d > 0 && x * d > 0
    ensures x > 0
  {
  }

  lemma MulNonneg(x: int, y: int)
    requires x >= 0 && y >= 0
    ensures x * y >= 0
  {
  }

  /** An index below `count*entries` splits into a group and a component. */
  lemma InnerSplit(count: nat, sh: Shape, gid: int, k: int)
    requires 0 <= gid < count && 0 <= k < sh.entries
    ensures 0 <= gid * sh.entries + k < count * sh.entries
    ensures (gid * sh.entries + k) / sh.entries == gid
    ensures (gid * sh.entries + k) % sh.entries == k
  {
    DivModUnique(gid * sh.entries + k, sh.entries, gid, k);
    MulNonneg(gid, sh.entries);
    assert (count - gid) * sh.entries >= sh.entries by { MulAtLeast(count - gid, sh.entries); }
    assert (count - gid) * sh.entries == count * sh.entries - gid * sh.entries;
  }

  lemma MulAtLeast(x: int, d: int)
    requires x >= 1 && d > 0
    ensures x * d >= d
  {
    assert x * d == d + (x - 1) * d;
  }

  /** Every slot of the shape has a flat index in range, and splitting that
      index gives the slot back. */
  lemma {:induction false} SplitFlat(count: nat, sh: Shape, m: int, gid: int, k: int)
    requires InShape(count, sh, m, gid, k)
    ensures count * sh.entries > 0
    ensures 0 <= Flat(count, sh, m, gid, k) < Total(count, sh)
    ensures Split(count, sh, Flat(count, sh, m, gid, k)) == Slot(m, gid, k)
  {
    var ge := count * sh.entries;
    MulAtLeast(count, sh.entries);
    InnerSplit(count, sh, gid, k);
    var vid := gid * sh.entries + k;
    var g := Flat(count, sh, m, gid, k);
    assert g == m * ge + vid;
    DivModUnique(g, ge, m, vid);
    MulNonneg(m, ge);
    MulAtLeast(sh.vectors - m, ge);
    assert (sh.vectors - m) * ge == sh.vectors * ge - m * ge;
    assert Total(count, sh) == sh.vectors * ge;
  }

  /** Every slot's flat index is a loop index: no slot comes before 0. */
  lemma FlatNonnegative(count: nat, sh: Shape)
    ensures forall m, gid, k | InShape(count, sh, m, gid, k) :: 0 <= Flat(count, sh, m, gid, k)
  {
    forall m, gid, k | InShape(count, sh, m, gid, k) ensures 0 <= Flat(count, sh, m, gid, k) {
      SplitFlat(count, sh, m, gid, k);
    }
  }

  /** Quotient and remainder of an index below `b*d`. */
  lemma DivBelow(a: int, d: int, b: int)
    requires d > 0 && 0 <= a < b * d
    ensures 0 <= a / d < b && 0 <= a % d < d
    ensures a == (a / d) * d + a % d
  {
    assert (a / d) * d <= a;
    MulLess(a / d, b, d);
  }

  /** Every flat index below the total splits into a slot of the shape, and
      flattening that slot gives the index back: together with SplitFlat, the
      flat loop visits each (m, gid, k) exactly once. */
  lemma {:induction false} FlatSplit(count: nat, sh: Shape, g: int)
    requires 0 <= g < Total(count, sh)
    ensures count * sh.entries > 0
    ensures InShape(count, sh, Split(count, sh, g).m, Split(count, sh, g).gid, Split(count, sh, g).k)
    ensures Flat(count, sh, Split(count, sh, g).m, Split(count, sh, g).gid, Split(count, sh, g).k) == g
  {
    var ge := count * sh.entries;
    assert Total(count, sh) == sh.vectors * ge;
    MulNonneg(count, sh.entries);
    PosProduct(sh.vectors, ge);
    PosProduct(count, sh.entries);
    DivBelow(g, ge, sh.vectors);
    var vid := g % ge;
    DivBelow(vid, sh.entries, count);
  }

  /** The members of group gid can be read, and so can every input cell they
      address. */
  predicate GroupReadable(gr: Groups, sh: Shape, stride: int, len: int, m: int, gid: int, k: int) {
    && 0 <= gid && gid + 1 < |gr.starts|
    && (gr.starts[gid] < gr.starts[gid + 1] ==> 0 <= gr.starts[gid] && gr.starts[gid + 1] <= |gr.ids|)
    && forall n | gr.starts[gid] <= n < gr.starts[gid + 1] :: 0 <= Cell(sh, stride, m, gr.ids[n], k) < len
  }

  /** What a kernel needs to address its member cells and its group cells. */
  ghost predicate KernelSafe(gr: Groups, sh: Shape, stride: int, len: int, gstride: int, glen: int) {
    forall m, gid, k | InShape(gr.count, sh, m, gid, k) ::
      GroupReadable(gr, sh, stride, len, m, gid, k) && 0 <= Cell(sh, gstride, m, gid, k) < glen
  }

  /** Position n of `gatherIds` lies in group gid's member range. */
  predicate InGroup(gr: Groups, gid: int, n: int) {
    0 <= gid && gid + 1 < |gr.starts| && gr.starts[gid] <= n < gr.starts[gid + 1] && 0 <= n < |gr.ids|
  }

  /** The left fold of the operator, from its identity, over the values of
      members lo .. hi-1 of a group (component k of vector m). */
  function GroupFold<T>(red: Reducer<T>, gr: Groups, sh: Shape, stride: int, q: seq<T>,
                        m: int, k: int, lo: int, hi: int): T
    requires lo < hi ==> 0 <= lo && hi <= |gr.ids|
    requires forall n | lo <= n < hi :: 0 <= Cell(sh, stride, m, gr.ids[n], k) < |q|
    decreases hi - lo
  {
    if hi <= lo then red.init
    else red.combine(GroupFold(red, gr, sh, stride, q, m, k, lo, hi - 1),
                     q[Cell(sh, stride, m, gr.ids[hi - 1], k)])
  }

  /** The full fold of group gid. */
  function GatherValue<T>(red: Reducer<T>, gr: Groups, sh: Shape, stride: int, q: seq<T>,
                          m: int, gid: int, k: int): T
    requires GroupReadable(gr, sh, stride, |q|, m, gid, k)
  {
    GroupFold(red, gr, sh, stride, q, m, k, gr.starts[gid], gr.starts[gid + 1])
  }

  /** Distinct slots of the shape address distinct cells: true when the
      vectors do not overlap (`count*entries <= stride`) or there is at most
      one vector. */
  predicate Separated(count: nat, sh: Shape, stride: int) {
    sh.vectors <= 1 || count * sh.entries <= stride
  }

  /** Under Separated, group cells are pairwise distinct. */
  lemma {:induction false} SeparatedInjective(count: nat, sh: Shape, stride: int,
                                              m: int, gid: int, k: int, m': int, gid': int, k': int)
    requires Separated(count, sh, stride)
    requires InShape(count, sh, m, gid, k) && InShape(count, sh, m', gid', k')
    requires Cell(sh, stride, m, gid, k) == Cell(sh, stride, m', gid', k')
    ensures m == m' && gid == gid' && k == k'
  {
    InnerSplit(count, sh, gid, k);
    InnerSplit(count, sh, gid', k');
    var v, v' := gid * sh.entries + k, gid' * sh.entries + k';
    if sh.vectors <= 1 {
      assert m == 0 && m' == 0;
    } else {
      assert stride > 0 by { MulAtLeast(count, sh.entries); }
      DivModUnique(Cell(sh, stride, m, gid, k), stride, m, v);
      DivModUnique(Cell(sh, stride, m', gid', k'), stride, m', v');
    }
    assert v == v';
  }

  /** Under Separated, distinct slots address distinct cells. */
  lemma {:induction false} SeparatedDistinct(count: nat, sh: Shape, stride: int,
                                             m: int, gid: int, k: int, m': int, gid': int, k': int)
    requires Separated(count, sh, stride)
    requires InShape(count, sh, m, gid, k) && InShape(count, sh, m', gid', k')
    requires Slot(m, gid, k) != Slot(m', gid', k')
    ensures Cell(sh, stride, m, gid, k) != Cell(sh, stride, m', gid', k')
  {
    InnerSplit(count, sh, gid, k);
    InnerSplit(count, sh, gid', k');
    var v, v' := gid * sh.entries + k, gid' * sh.entries + k';
    if sh.vectors <= 1 {
      assert m == 0 && m' == 0;
    } else {
      assert stride > 0 by { MulAtLeast(count, sh.entries); }
      DivModUnique(Cell(sh, stride, m, gid, k), stride, m, v);
      DivModUnique(Cell(sh, stride, m', gid', k'), stride, m', v');
    }
  }

  /** Element j of block i of a buffer cut into blocks `step` apart from `base`. */
  function BlockAt(base: int, step: int, i: int, j: int): int {
    base + step * i + j
  }

  /** Element j of vector i's block in the staging buffer, as the
      owned-halo copies address it (block start `NhaloGather*Nentries*i`). */
  function HaloBlockIndex(plan: Plan, sh: Shape, i: int, j: int): int {
    BlockAt(0, plan.halo.count * sh.entries, i, j)
  }

  /** count blocks of len elements, `step` apart, do not overlap. */
  predicate BlocksApart(len: nat, step: int, count: nat) {
    count <= 1 || len <= step
  }

  /** Cell c lies in none of the blocks 0 .. n-1. */
  ghost predicate OutsideBlocks(base: int, step: int, len: nat, n: int, c: int) {
    forall i | 0 <= i < n :: !(BlockAt(base, step, i, 0) <= c < BlockAt(base, step, i, 0) + len)
  }

  /** Blocks 0 .. count-1 of both buffers are in range. */
  ghost predicate BlocksFit(dstBase: int, dstStep: int, dstLen: int, srcBase: int, srcStep: int, srcLen: int,
                            len: nat, count: nat) {
    forall i, j | 0 <= i < count && 0 <= j < len ::
      0 <= BlockAt(dstBase, dstStep, i, j) < dstLen && 0 <= BlockAt(srcBase, srcStep, i, j) < srcLen
  }

  /** `memcpy` of len elements from src at srcOff to dst at dstOff. */
  method CopyBlock<T>(dst: seq<T>, dstOff: int, src: seq<T>, srcOff: int, len: nat) returns (r: seq<T>)
    requires len > 0 ==> 0 <= dstOff && dstOff + len <= |dst|
    requires len > 0 ==> 0 <= srcOff && srcOff + len <= |src|
    ensures |r| == |dst|
    ensures forall c | dstOff <= c < dstOff + len :: r[c] == src[c - dstOff + srcOff]
    ensures forall c | 0 <= c < |r| && !(dstOff <= c < dstOff + len) :: r[c] == dst[c]
  {
    r := dst;
    var j := 0;
    while j < len
      invariant 0 <= j <= len
      invariant |r| == |dst|
      invariant forall c | dstOff <= c < dstOff + j :: r[c] == src[c - dstOff + srcOff]
      invariant forall c | 0 <= c < |r| && !(dstOff <= c < dstOff + j) :: r[c] == dst[c]
    {
      r := r[dstOff + j := src[srcOff + j]];
      j := j + 1;
    }
  }

  /** Block i of dst holds block i of src. */
  ghost predicate BlockCopied<T>(dst: seq<T>, dstBase: int, dstStep: int, src: seq<T>, srcBase: int, srcStep: int,
                                 len: nat, i: int) {
    forall j | 0 <= j < len ::
      && 0 <= BlockAt(dstBase, dstStep, i, j) < |dst|
      && 0 <= BlockAt(srcBase, srcStep, i, j) < |src|
      && dst[BlockAt(dstBase, dstStep, i, j)] == src[BlockAt(srcBase, srcStep, i, j)]
  }

  /** With non-negative step, an earlier block of non-overlapping blocks ends
      before a later one starts. */
  lemma BlockBefore(base: int, step: int, len: nat, count: nat, i': int, i: int, j: int)
    requires BlocksApart(len, step, count) && 0 <= i' < i < count && 0 <= j < len
    ensures BlockAt(base, step, i', j) < BlockAt(base, step, i, 0)
  {
    MulAtLeast(i - i', step);
    assert step * i - step * i' == step * (i - i');
  }

  /** Copying block i leaves an earlier block i' as it was. */
  lemma {:induction false} CopyKeepsBlock<T>(before: seq<T>, after: seq<T>, dstBase: int, dstStep: int,
                                             src: seq<T>, srcBase: int, srcStep: int,
                                             len: nat, count: nat, i': int, i: int)
    requires BlocksApart(len, dstStep, count) && 0 <= i' < i < count
    requires |after| == |before|
    requires forall c | 0 <= c < |after| &&
        !(BlockAt(dstBase, dstStep, i, 0) <= c < BlockAt(dstBase, dstStep, i, 0) + len) ::
      after[c] == before[c]
    requires BlockCopied(before, dstBase, dstStep, src, srcBase, srcStep, len, i')
    ensures BlockCopied(after, dstBase, dstStep, src, srcBase, srcStep, len, i')
  {
    forall j | 0 <= j < len
      ensures after[BlockAt(dstBase, dstStep, i', j)] == src[BlockAt(srcBase, srcStep, i', j)]
    {
      var c := BlockAt(dstBase, dstStep, i', j);
      BlockBefore(dstBase, dstStep, len, count, i', i, j);
      assert after[c] == before[c];
    }
  }

  /** The per-vector `memcpy` loop of the owned-halo copies: block i (of len
      elements) of src goes to block i of dst, for i < count. */
  method CopyBlocks<T>(dst: seq<T>, dstBase: int, dstStep: int, src: seq<T>, srcBase: int, srcStep: int,
                       len: nat, count: nat) returns (out: seq<T>)
    requires BlocksFit(dstBase, dstStep, |dst|, srcBase, srcStep, |src|, len, count)
    ensures |out| == |dst|
    ensures BlocksApart(len, dstStep, count) ==>
      forall i, j | 0 <= i < count && 0 <= j < len ::
        out[BlockAt(dstBase, dstStep, i, j)] == src[BlockAt(srcBase, srcStep, i, j)]
    ensures forall c | 0 <= c < |dst| && OutsideBlocks(dstBase, dstStep, len, count, c) :: out[c] == dst[c]
  {
    out := dst;
    var i := 0;
    while i < count
      invariant 0 <= i <= count
      invariant |out| == |dst|
      invariant BlocksApart(len, dstStep, count) ==>
        forall i' | 0 <= i' < i :: BlockCopied(out, dstBase, dstStep, src, srcBase, srcStep, len, i')
      invariant forall c | 0 <= c < |dst| && OutsideBlocks(dstBase, dstStep, len, i, c) :: out[c] == dst[c]
    {
      var d := BlockAt(dstBase, dstStep, i, 0);
      if len > 0 {
        assert 0 <= d && BlockAt(dstBase, dstStep, i, len - 1) < |dst|;
        assert 0 <= BlockAt(srcBase, srcStep, i, 0) && BlockAt(srcBase, srcStep, i, len - 1) < |src|;
      }
      ghost var before := out;
      out := CopyBlock(out, d, src, BlockAt(srcBase, srcStep, i, 0), len);
      if BlocksApart(len, dstStep, count) {
        forall i' | 0 <= i' < i + 1
          ensures BlockCopied(out, dstBase, dstStep, src, srcBase, srcStep, len, i')
        {
          if i' < i {
            CopyKeepsBlock(before, out, dstBase, dstStep, src, srcBase, srcStep, len, count, i', i);
          } else {
            forall j | 0 <= j < len
              ensures out[BlockAt(dstBase, dstStep, i, j)] == src[BlockAt(srcBase, srcStep, i, j)]
            {
              assert BlockAt(dstBase, dstStep, i, j) == d + j;
            }
          }
        }
      }
      i := i + 1;
    }
    if BlocksApart(len, dstStep, count) {
      forall i, j | 0 <= i < count && 0 <= j < len
        ensures out[BlockAt(dstBase, dstStep, i, j)] == src[BlockAt(srcBase, srcStep, i, j)]
      {
        assert BlockCopied(out, dstBase, dstStep, src, srcBase, srcStep, len, i);
      }
    }
  }

  /** The exchange keeps the staging buffer's length. */
  ghost predicate LengthPreserving<T(!new)>(exchange: seq<T> -> seq<T>) {
    forall b: seq<T> :: |exchange(b)| == |b|
  }
}
