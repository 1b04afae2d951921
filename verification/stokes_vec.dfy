/**
 * Block vectors of the Stokes solver (solvers/stokes/src/stokesVec.c): one
 * flat array of Ndof dfloats holding the velocity components x, y (and z in
 * 3D), each NtotalV long, followed by the pressure p, NtotalP long; and the
 * host versions of its copy, scale, scaled-add, zero and weighted inner
 * product. `dfloat` is modelled as `real`.
 */
module StokesVec {

  /** The sizes the vector operations read from the solver. */
  datatype Stokes = Stokes(dim: int, ntotalV: nat, ntotalP: nat, ndof: nat)

  /** A component pointer into the flat array: an element offset, NULL, or
      never assigned. */
  datatype Pointer = At(offset: nat) | Null | Unassigned

  datatype Layout = Layout(x: Pointer, y: Pointer, z: Pointer, p: Pointer)

  /** The dimensions the layout has a case for. */
  predicate KnownDim(dim: int) {
    dim == 2 || dim == 3
  }

  /** Where `stokesVecAllocate` points the components of the host array. */
  function HostLayout(st: Stokes): (l: Layout)
    ensures l.x == At(0) && l.y == At(st.ntotalV)
    ensures st.dim == 2 ==> l.z == Null && l.p == At(2 * st.ntotalV)
    ensures st.dim == 3 ==> l.z == At(2 * st.ntotalV) && l.p == At(3 * st.ntotalV)
    ensures !KnownDim(st.dim) ==> l.z == Unassigned && l.p == Unassigned
  {
    var nv := st.ntotalV;
    if st.dim == 2 then Layout(At(0), At(nv), Null, At(2 * nv))
    else if st.dim == 3 then Layout(At(0), At(nv), At(2 * nv), At(3 * nv))
    else Layout(At(0), At(nv), Unassigned, Unassigned)
  }

  /** The device layout: the same offsets in bytes, `sizeof(dfloat)` each;
      o_z is assigned only in 3D. */
  function DeviceLayout(st: Stokes, dfloatSize: nat): (l: Layout)
  {
    var nv := st.ntotalV * dfloatSize;
    if st.dim == 2 then Layout(At(0), At(nv), Unassigned, At(2 * nv))
    else if st.dim == 3 then Layout(At(0), At(nv), At(2 * nv), At(3 * nv))
    else Layout(At(0), At(nv), Unassigned, Unassigned)
  }

  /** A device pointer sits at the byte offset of the host pointer. */
  predicate Mirrors(host: Pointer, device: Pointer, dfloatSize: nat) {
    match host
    case At(o) => device == At(o * dfloatSize)
    case Null => device == Unassigned
    case Unassigned => device == Unassigned
  }

  lemma ScaleOffset(k: nat, nv: nat, size: nat)
    ensures (k * nv) * size == k * (nv * size)
  {
  }

  /** Every device pointer is the host pointer scaled by `sizeof(dfloat)`;
      the NULL host z of a 2D vector has no device counterpart. */
  lemma {:induction false} DeviceMirrorsHost(st: Stokes, dfloatSize: nat)
    ensures var h := HostLayout(st); var d := DeviceLayout(st, dfloatSize);
      && Mirrors(h.x, d.x, dfloatSize) && Mirrors(h.y, d.y, dfloatSize)
      && Mirrors(h.z, d.z, dfloatSize) && Mirrors(h.p, d.p, dfloatSize)
  {
    ScaleOffset(2, st.ntotalV, dfloatSize);
    ScaleOffset(3, st.ntotalV, dfloatSize);
  }

  /** The number of velocity components. */
  function Components(st: Stokes): (c: nat)
    requires KnownDim(st.dim)
    ensures c == st.dim
  {
    if st.dim == 2 then 2 else 3
  }

  /** The block [o, o + len) of a pointer, empty for a pointer with no offset. */
  predicate InBlock(ptr: Pointer, len: nat, n: int) {
    ptr.At? && ptr.offset <= n < ptr.offset + len
  }

  /** In 2D and 3D every component block lies in an array of
      dim*NtotalV + NtotalP entries, the blocks do not overlap, and together
      they cover the array. */
  lemma {:induction false} LayoutPartitions(st: Stokes, n: int)
    requires KnownDim(st.dim) && 0 <= n < Components(st) * st.ntotalV + st.ntotalP
    ensures var l := HostLayout(st);
      var blocks := [InBlock(l.x, st.ntotalV, n), InBlock(l.y, st.ntotalV, n),
                     InBlock(l.z, st.ntotalV, n), InBlock(l.p, st.ntotalP, n)];
      forall a, b | 0 <= a < b < 4 :: !(blocks[a] && blocks[b])
    ensures var l := HostLayout(st);
      InBlock(l.x, st.ntotalV, n) || InBlock(l.y, st.ntotalV, n) ||
      InBlock(l.z, st.ntotalV, n) || InBlock(l.p, st.ntotalP, n)
  {
    var l := HostLayout(st);
    assert l.p == At(Components(st) * st.ntotalV);
  }

  /** `stokesVecCopyHost`: v[i] = u[i] for i < Ndof; the rest of v is kept. */
  method Copy(st: Stokes, u: seq<real>, v: seq<real>) returns (w: seq<real>)
    requires st.ndof <= |u| && st.ndof <= |v|
    ensures |w| == |v|
    ensures forall i | 0 <= i < st.ndof :: w[i] == u[i]
    ensures forall i | st.ndof <= i < |v| :: w[i] == v[i]
  {
    w := v;
    var i := 0;
    while i < st.ndof
      invariant i <= st.ndof && |w| == |v|
      invariant forall j | 0 <= j < i :: w[j] == u[j]
      invariant forall j | i <= j < |v| :: w[j] == v[j]
    {
      w := w[i := u[i]];
      i := i + 1;
    }
  }

  /** `stokesVecScaleHost`: v[i] *= c for i < Ndof. */
  method Scale(st: Stokes, v: seq<real>, c: real) returns (w: seq<real>)
    requires st.ndof <= |v|
    ensures |w| == |v|
    ensures ScaledBy(w, v, c, st.ndof)
    ensures forall i | st.ndof <= i < |v| :: w[i] == v[i]
  {
    w := v;
    var i := 0;
    while i < st.ndof
      invariant i <= st.ndof && |w| == |v|
      invariant ScaledBy(w, v, c, i)
      invariant forall j | i <= j < |v| :: w[j] == v[j]
    {
      w := w[i := w[i] * c];
      i := i + 1;
    }
  }

  /** The first n entries of w are those of v times c. */
  ghost predicate ScaledBy(w: seq<real>, v: seq<real>, c: real, n: nat) {
    n <= |w| && n <= |v| && forall i | 0 <= i < n :: w[i] == v[i] * c
  }

  /** Entry i of w is a u[i] + b v[i]. */
  predicate CombinedAt(w: seq<real>, a: real, u: seq<real>, b: real, v: seq<real>, i: nat)
    requires i < |w| && i < |u| && i < |v|
  {
    w[i] == a * u[i] + b * v[i]
  }

  /** The first n entries of w are a u + b v. */
  ghost predicate Combined(w: seq<real>, a: real, u: seq<real>, b: real, v: seq<real>, n: nat) {
    n <= |w| && n <= |u| && n <= |v| && forall i | 0 <= i < n :: CombinedAt(w, a, u, b, v, i)
  }

  /** `stokesVecScaledAddHost`: v[i] = a u[i] + b v[i] for i < Ndof; u is
      only read. */
  method ScaledAdd(st: Stokes, a: real, u: seq<real>, b: real, v: seq<real>) returns (w: seq<real>)
    requires st.ndof <= |u| && st.ndof <= |v|
    ensures |w| == |v|
    ensures Combined(w, a, u, b, v, st.ndof)
    ensures forall i | st.ndof <= i < |v| :: w[i] == v[i]
  {
    w := v;
    var i := 0;
    while i < st.ndof
      invariant i <= st.ndof && |w| == |v|
      invariant Combined(w, a, u, b, v, i)
      invariant forall j | i <= j < |v| :: w[j] == v[j]
    {
      ghost var before := w;
      w := w[i := a * u[i] + b * w[i]];
      forall j | 0 <= j < i + 1 ensures CombinedAt(w, a, u, b, v, j) {
        if j < i {
          assert CombinedAt(before, a, u, b, v, j);
        }
      }
      i := i + 1;
    }
  }

  /** `stokesVecZeroHost`: the first Ndof entries become 0. */
  method Zero(st: Stokes, v: seq<real>) returns (w: seq<real>)
    requires st.ndof <= |v|
    ensures |w| == |v|
    ensures forall i | 0 <= i < st.ndof :: w[i] == 0.0
    ensures forall i | st.ndof <= i < |v| :: w[i] == v[i]
  {
    w := v;
    var i := 0;
    while i < st.ndof
      invariant i <= st.ndof && |w| == |v|
      invariant forall j | 0 <= j < i :: w[j] == 0.0
      invariant forall j | i <= j < |v| :: w[j] == v[j]
    {
      w := w[i := 0.0];
      i := i + 1;
    }
  }

  /** Offset of the pressure block, dim*NtotalV. */
  function PressureOffset(st: Stokes): (o: nat)
    requires KnownDim(st.dim)
    ensures o == Components(st) * st.ntotalV && HostLayout(st).p == At(o)
  {
    if st.dim == 2 then 2 * st.ntotalV else 3 * st.ntotalV
  }

  /** The velocity blocks of u and v and the velocity inverse degree are
      all in bounds. */
  predicate VelocityFits(st: Stokes, u: seq<real>, v: seq<real>, degV: seq<real>) {
    && KnownDim(st.dim)
    && PressureOffset(st) <= |u| && PressureOffset(st) <= |v| && st.ntotalV <= |degV|
  }

  /** The pressure blocks of u and v and the pressure inverse degree are in
      bounds. */
  predicate PressureFits(st: Stokes, u: seq<real>, v: seq<real>, degP: seq<real>) {
    && KnownDim(st.dim)
    && PressureOffset(st) + st.ntotalP <= |u| && PressureOffset(st) + st.ntotalP <= |v|
    && st.ntotalP <= |degP|
  }

  /** Sum over the velocity components of u_c[i] v_c[i] at node i. */
  function NodeProduct(st: Stokes, u: seq<real>, v: seq<real>, i: nat): real
    requires KnownDim(st.dim) && i < st.ntotalV
    requires PressureOffset(st) <= |u| && PressureOffset(st) <= |v|
  {
    var nv := st.ntotalV;
    var xy := u[i] * v[i] + u[nv + i] * v[nv + i];
    if st.dim == 2 then xy else xy + u[2 * nv + i] * v[2 * nv + i]
  }

  /** f(0) + f(1) + ... + f(count - 1), added in that order. */
  function Sum(f: nat -> real, count: nat): real
    decreases count, 1
  {
    if count == 0 then 0.0 else SumThrough(f, count - 1)
  }

  /** The sum up to and including f(last). A separate step of the recursion,
      so that a sum exposes its last term only where a proof asks for it
      through SumStep. */
  function SumThrough(f: nat -> real, last: nat): real
    decreases last + 1, 0
  {
    Sum(f, last) + f(last)
  }

  /** One step of a sum: the last term added to the shorter sum. */
  lemma SumStep(f: nat -> real, count: nat)
    requires count > 0
    ensures Sum(f, count) == Sum(f, count - 1) + f(count - 1)
  {
    assert Sum(f, count) == SumThrough(f, count - 1);
  }

  /** Sums of equal terms are equal. */
  lemma {:induction false} SumPointwise(f: nat -> real, g: nat -> real, count: nat)
    requires forall i | 0 <= i < count :: f(i) == g(i)
    ensures Sum(f, count) == Sum(g, count)
  {
    if count > 0 {
      SumPointwise(f, g, count - 1);
      SumStep(f, count);
      SumStep(g, count);
    }
  }

  /** A sum of non-negative terms is non-negative. */
  lemma {:induction false} SumNonnegative(f: nat -> real, count: nat)
    requires forall i | 0 <= i < count :: f(i) >= 0.0
    ensures Sum(f, count) >= 0.0
  {
    if count > 0 {
      SumNonnegative(f, count - 1);
      SumStep(f, count);
    }
  }

  /** Summation is linear. */
  lemma {:induction false} SumLinear(fw: nat -> real, a: real, fu: nat -> real, b: real, fv: nat -> real, count: nat)
    requires forall i | 0 <= i < count :: fw(i) == a * fu(i) + b * fv(i)
    ensures Sum(fw, count) == a * Sum(fu, count) + b * Sum(fv, count)
  {
    if count > 0 {
      SumLinear(fw, a, fu, b, fv, count - 1);
      SumStep(fw, count);
      SumStep(fu, count);
      SumStep(fv, count);
      Regroup(a, Sum(fu, count - 1), fu(count - 1), Sum(fu, count),
              b, Sum(fv, count - 1), fv(count - 1), Sum(fv, count));
    }
  }

  lemma Regroup(a: real, x1: real, x2: real, x: real, b: real, y1: real, y2: real, y: real)
    requires x == x1 + x2 && y == y1 + y2
    ensures (a * x1 + b * y1) + (a * x2 + b * y2) == a * x + b * y
  {
  }

  /** The velocity terms of the inner product, node by node: the component
      products times the velocity inverse degree. */
  function VelocityTerms(st: Stokes, u: seq<real>, v: seq<real>, degV: seq<real>): nat -> real
    requires VelocityFits(st, u, v, degV)
  {
    (i: nat) => if i < st.ntotalV then NodeProduct(st, u, v, i) * degV[i] else 0.0
  }

  /** The pressure terms: u_p[i] v_p[i] times the pressure inverse degree. */
  function PressureTerms(st: Stokes, u: seq<real>, v: seq<real>, degP: seq<real>): nat -> real
    requires PressureFits(st, u, v, degP)
  {
    (i: nat) => if i < st.ntotalP then u[PressureOffset(st) + i] * v[PressureOffset(st) + i] * degP[i] else 0.0
  }

  /** The velocity part of the inner product. */
  function VelocityPart(st: Stokes, u: seq<real>, v: seq<real>, degV: seq<real>): real
    requires VelocityFits(st, u, v, degV)
  {
    Sum(VelocityTerms(st, u, v, degV), st.ntotalV)
  }

  /** The pressure part of the inner product. */
  function PressurePart(st: Stokes, u: seq<real>, v: seq<real>, degP: seq<real>): real
    requires PressureFits(st, u, v, degP)
  {
    Sum(PressureTerms(st, u, v, degP), st.ntotalP)
  }

  /** The weighted inner product of two block vectors: velocity nodes, then
      pressure nodes. */
  function Inner(st: Stokes, u: seq<real>, v: seq<real>, degV: seq<real>, degP: seq<real>): real
    requires VelocityFits(st, u, v, degV) && PressureFits(st, u, v, degP)
  {
    VelocityPart(st, u, v, degV) + PressurePart(st, u, v, degP)
  }

  /** `stokesVecInnerProductHost`: the velocity loop for 2D or 3D, then the
      pressure loop. Another dimension leaves the pressure pointer
      unassigned, so the source is only defined for 2D and 3D. */
  method InnerProduct(st: Stokes, u: seq<real>, v: seq<real>, degV: seq<real>, degP: seq<real>) returns (c: real)
    requires VelocityFits(st, u, v, degV) && PressureFits(st, u, v, degP)
    ensures c == Inner(st, u, v, degV, degP)
  {
    var vel := VelocityLoop(st, u, v, degV);
    var pre := PressureLoop(st, u, v, degP);
    c := vel + pre;
  }

  /** The velocity loop of the inner product, summing from zero. */
  method VelocityLoop(st: Stokes, u: seq<real>, v: seq<real>, degV: seq<real>) returns (c: real)
    requires VelocityFits(st, u, v, degV)
    ensures c == VelocityPart(st, u, v, degV)
  {
    var f := VelocityTerms(st, u, v, degV);
    c := 0.0;
    var i := 0;
    while i < st.ntotalV
      invariant i <= st.ntotalV
      invariant c == Sum(f, i)
    {
      assert f(i) == NodeProduct(st, u, v, i) * degV[i];
      SumStep(f, i + 1);
      c := c + NodeProduct(st, u, v, i) * degV[i];
      i := i + 1;
    }
  }

  /** The pressure loop of the inner product, summed on its own. */
  method PressureLoop(st: Stokes, u: seq<real>, v: seq<real>, degP: seq<real>) returns (c: real)
    requires PressureFits(st, u, v, degP)
    ensures c == PressurePart(st, u, v, degP)
  {
    var g := PressureTerms(st, u, v, degP);
    c := 0.0;
    var i := 0;
    while i < st.ntotalP
      invariant i <= st.ntotalP
      invariant c == Sum(g, i)
    {
      var o := PressureOffset(st) + i;
      assert g(i) == u[o] * v[o] * degP[i];
      SumStep(g, i + 1);
      c := c + u[o] * v[o] * degP[i];
      i := i + 1;
    }
  }

  /** The inner product is symmetric: <u, v> == <v, u>. */
  lemma InnerSymmetric(st: Stokes, u: seq<real>, v: seq<real>, degV: seq<real>, degP: seq<real>)
    requires VelocityFits(st, u, v, degV) && PressureFits(st, u, v, degP)
    ensures Inner(st, u, v, degV, degP) == Inner(st, v, u, degV, degP)
  {
    SumPointwise(VelocityTerms(st, u, v, degV), VelocityTerms(st, v, u, degV), st.ntotalV);
    SumPointwise(PressureTerms(st, u, v, degP), PressureTerms(st, v, u, degP), st.ntotalP);
  }

  /** All inverse degrees are non-negative. */
  predicate NonnegativeWeights(w: seq<real>) {
    forall i | 0 <= i < |w| :: w[i] >= 0.0
  }

  lemma SquareNonnegative(a: real)
    ensures a * a >= 0.0
  {
  }

  /** With non-negative inverse degrees, <u, u> >= 0. */
  lemma InnerSelfNonnegative(st: Stokes, u: seq<real>, degV: seq<real>, degP: seq<real>)
    requires VelocityFits(st, u, u, degV) && PressureFits(st, u, u, degP)
    requires NonnegativeWeights(degV) && NonnegativeWeights(degP)
    ensures Inner(st, u, u, degV, degP) >= 0.0
  {
    var nv := st.ntotalV;
    forall i | 0 <= i < nv ensures VelocityTerms(st, u, u, degV)(i) >= 0.0 {
      SquareNonnegative(u[i]);
      SquareNonnegative(u[nv + i]);
      if st.dim == 3 {
        SquareNonnegative(u[2 * nv + i]);
      }
      assert NodeProduct(st, u, u, i) >= 0.0;
    }
    forall i | 0 <= i < st.ntotalP ensures PressureTerms(st, u, u, degP)(i) >= 0.0 {
      SquareNonnegative(u[PressureOffset(st) + i]);
    }
    SumNonnegative(VelocityTerms(st, u, u, degV), nv);
    SumNonnegative(PressureTerms(st, u, u, degP), st.ntotalP);
  }

  lemma NodeProductCombined(st: Stokes, t: seq<real>, w: seq<real>, a: real, u: seq<real>, b: real, v: seq<real>,
                            n: nat, i: nat)
    requires KnownDim(st.dim) && PressureOffset(st) <= |t| && PressureOffset(st) <= |w|
    requires i < st.ntotalV && PressureOffset(st) <= n && Combined(w, a, u, b, v, n)
    ensures NodeProduct(st, t, w, i) == a * NodeProduct(st, t, u, i) + b * NodeProduct(st, t, v, i)
  {
    var nv := st.ntotalV;
    assert CombinedAt(w, a, u, b, v, i) && CombinedAt(w, a, u, b, v, nv + i);
    if st.dim == 3 {
      assert CombinedAt(w, a, u, b, v, 2 * nv + i);
    }
  }

  lemma Distribute(z: real, a: real, x: real, b: real, y: real, d: real)
    requires z == a * x + b * y
    ensures z * d == a * (x * d) + b * (y * d)
  {
  }

  lemma VelocityCombined(st: Stokes, t: seq<real>, w: seq<real>, a: real, u: seq<real>, b: real, v: seq<real>,
                         degV: seq<real>, n: nat)
    requires VelocityFits(st, t, w, degV) && PressureOffset(st) <= n && Combined(w, a, u, b, v, n)
    ensures VelocityFits(st, t, u, degV) && VelocityFits(st, t, v, degV)
    ensures VelocityPart(st, t, w, degV) == a * VelocityPart(st, t, u, degV) + b * VelocityPart(st, t, v, degV)
  {
    var fw, fu, fv := VelocityTerms(st, t, w, degV), VelocityTerms(st, t, u, degV), VelocityTerms(st, t, v, degV);
    forall i | 0 <= i < st.ntotalV ensures fw(i) == a * fu(i) + b * fv(i) {
      VelocityTermCombined(st, t, w, a, u, b, v, degV, n, i);
    }
    SumsLinear(fw, a, fu, b, fv, st.ntotalV,
               VelocityPart(st, t, w, degV), VelocityPart(st, t, u, degV), VelocityPart(st, t, v, degV));
  }

  lemma PressureCombined(st: Stokes, t: seq<real>, w: seq<real>, a: real, u: seq<real>, b: real, v: seq<real>,
                         degP: seq<real>, n: nat)
    requires PressureFits(st, t, w, degP) && PressureOffset(st) + st.ntotalP <= n && Combined(w, a, u, b, v, n)
    ensures PressureFits(st, t, u, degP) && PressureFits(st, t, v, degP)
    ensures PressurePart(st, t, w, degP) == a * PressurePart(st, t, u, degP) + b * PressurePart(st, t, v, degP)
  {
    var gw, gu, gv := PressureTerms(st, t, w, degP), PressureTerms(st, t, u, degP), PressureTerms(st, t, v, degP);
    forall i | 0 <= i < st.ntotalP ensures gw(i) == a * gu(i) + b * gv(i) {
      PressureTermCombined(st, t, w, a, u, b, v, degP, n, i);
    }
    SumsLinear(gw, a, gu, b, gv, st.ntotalP,
               PressurePart(st, t, w, degP), PressurePart(st, t, u, degP), PressurePart(st, t, v, degP));
  }

  /** One velocity term of the inner product is linear in the second vector. */
  lemma VelocityTermCombined(st: Stokes, t: seq<real>, w: seq<real>, a: real, u: seq<real>, b: real, v: seq<real>,
                             degV: seq<real>, n: nat, i: nat)
    requires VelocityFits(st, t, w, degV) && PressureOffset(st) <= n && Combined(w, a, u, b, v, n)
    requires i < st.ntotalV
    ensures VelocityFits(st, t, u, degV) && VelocityFits(st, t, v, degV)
    ensures VelocityTerms(st, t, w, degV)(i)
         == a * VelocityTerms(st, t, u, degV)(i) + b * VelocityTerms(st, t, v, degV)(i)
  {
    NodeProductCombined(st, t, w, a, u, b, v, n, i);
    Distribute(NodeProduct(st, t, w, i), a, NodeProduct(st, t, u, i), b, NodeProduct(st, t, v, i), degV[i]);
  }

  /** One pressure term of the inner product is linear in the second vector. */
  lemma PressureTermCombined(st: Stokes, t: seq<real>, w: seq<real>, a: real, u: seq<real>, b: real, v: seq<real>,
                             degP: seq<real>, n: nat, i: nat)
    requires PressureFits(st, t, w, degP) && PressureOffset(st) + st.ntotalP <= n && Combined(w, a, u, b, v, n)
    requires i < st.ntotalP
    ensures PressureFits(st, t, u, degP) && PressureFits(st, t, v, degP)
    ensures PressureTerms(st, t, w, degP)(i)
         == a * PressureTerms(st, t, u, degP)(i) + b * PressureTerms(st, t, v, degP)(i)
  {
    var o := PressureOffset(st) + i;
    assert CombinedAt(w, a, u, b, v, o);
    ProductCombined(t[o], w[o], a, u[o], b, v[o], degP[i]);
  }

  /** SumLinear for sums known by name. */
  lemma SumsLinear(fw: nat -> real, a: real, fu: nat -> real, b: real, fv: nat -> real, count: nat,
                   sw: real, su: real, sv: real)
    requires forall i | 0 <= i < count :: fw(i) == a * fu(i) + b * fv(i)
    requires sw == Sum(fw, count) && su == Sum(fu, count) && sv == Sum(fv, count)
    ensures sw == a * su + b * sv
  {
    SumLinear(fw, a, fu, b, fv, count);
  }

  lemma ProductCombined(tv: real, wv: real, a: real, uv: real, b: real, vv: real, d: real)
    requires wv == a * uv + b * vv
    ensures tv * wv * d == a * (tv * uv * d) + b * (tv * vv * d)
  {
    Distribute(tv * wv, a, tv * uv, b, tv * vv, d);
  }

  /** The inner product is linear in its second argument: where w is
      a u + b v on every entry the product reads, <t, w> == a <t, u> + b <t, v>.
      This is what ScaledAdd does to the inner product. */
  lemma InnerCombined(st: Stokes, t: seq<real>, w: seq<real>, a: real, u: seq<real>, b: real, v: seq<real>,
                      degV: seq<real>, degP: seq<real>, n: nat)
    requires VelocityFits(st, t, w, degV) && PressureFits(st, t, w, degP)
    requires PressureOffset(st) + st.ntotalP <= n && Combined(w, a, u, b, v, n)
    ensures VelocityFits(st, t, u, degV) && PressureFits(st, t, u, degP)
    ensures VelocityFits(st, t, v, degV) && PressureFits(st, t, v, degP)
    ensures Inner(st, t, w, degV, degP) == a * Inner(st, t, u, degV, degP) + b * Inner(st, t, v, degV, degP)
  {
    VelocityCombined(st, t, w, a, u, b, v, degV, n);
    PressureCombined(st, t, w, a, u, b, v, degP, n);
    Regroup(a, VelocityPart(st, t, u, degV), PressurePart(st, t, u, degP), Inner(st, t, u, degV, degP),
            b, VelocityPart(st, t, v, degV), PressurePart(st, t, v, degP), Inner(st, t, v, degV, degP));
  }

  /** After Scale by c, every inner product with the vector is scaled by c. */
  lemma InnerScaled(st: Stokes, t: seq<real>, w: seq<real>, v: seq<real>, c: real,
                    degV: seq<real>, degP: seq<real>, n: nat)
    requires VelocityFits(st, t, w, degV) && PressureFits(st, t, w, degP)
    requires PressureOffset(st) + st.ntotalP <= n && ScaledBy(w, v, c, n)
    ensures VelocityFits(st, t, v, degV) && PressureFits(st, t, v, degP)
    ensures Inner(st, t, w, degV, degP) == c * Inner(st, t, v, degV, degP)
  {
    forall i | 0 <= i < n ensures CombinedAt(w, c, v, 0.0, v, i) {
    }
    InnerCombined(st, t, w, c, v, 0.0, v, degV, degP, n);
  }

  /** After Zero, every inner product with the vector is 0. */
  lemma InnerZero(st: Stokes, t: seq<real>, w: seq<real>, degV: seq<real>, degP: seq<real>, n: nat)
    requires VelocityFits(st, t, w, degV) && PressureFits(st, t, w, degP)
    requires PressureOffset(st) + st.ntotalP <= n <= |w| && forall i | 0 <= i < n :: w[i] == 0.0
    ensures Inner(st, t, w, degV, degP) == 0.0
  {
    forall i | 0 <= i < n ensures CombinedAt(w, 0.0, w, 0.0, w, i) {
    }
    InnerCombined(st, t, w, 0.0, w, 0.0, w, degV, degP, n);
  }

  /** After Copy from u, every inner product with the vector is the one
      with u. */
  lemma InnerCopied(st: Stokes, t: seq<real>, w: seq<real>, u: seq<real>, degV: seq<real>, degP: seq<real>, n: nat)
    requires VelocityFits(st, t, w, degV) && PressureFits(st, t, w, degP)
    requires PressureOffset(st) + st.ntotalP <= n <= |w| && n <= |u| && forall i | 0 <= i < n :: w[i] == u[i]
    ensures VelocityFits(st, t, u, degV) && PressureFits(st, t, u, degP)
    ensures Inner(st, t, w, degV, degP) == Inner(st, t, u, degV, degP)
  {
    forall i | 0 <= i < n ensures CombinedAt(w, 1.0, u, 0.0, u, i) {
    }
    InnerCombined(st, t, w, 1.0, u, 0.0, u, degV, degP, n);
  }
}
