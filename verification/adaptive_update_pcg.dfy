/**
 * The serial update step of the adaptive solver's preconditioned conjugate
 * gradient iteration (solvers/adaptive/src/adaptiveUpdatePCG.c): on the
 * first Nelements*Nq^3 nodes, x += alpha p and r -= alpha Ap, and the
 * weighted squared norm of the new residual is returned.
 *
 * `dfloat` is modelled as `real`, so the order of the summation does not
 * matter; the sum is nevertheless defined in the order the kernel adds.
 */
module AdaptiveUpdatePCG {

  /** Nodes per hexahedral element, `p_Np = p_Nq^3`. */
  function NodesPerElement(nq: nat): (np: nat)
    ensures nq > 0 ==> np >= nq
  {
    nq * nq * nq
  }

  /** Sum over n < count of r[n]^2 * w[n], added in increasing n. */
  function WeightedNorm(r: seq<real>, w: seq<real>, count: nat): real
    requires count <= |r| && count <= |w|
  {
    if count == 0 then 0.0 else WeightedNorm(r, w, count - 1) + r[count - 1] * r[count - 1] * w[count - 1]
  }

  /** The sum over the first `count` entries reads only those entries. */
  lemma {:induction false} WeightedNormPrefix(r: seq<real>, r': seq<real>, w: seq<real>, count: nat)
    requires count <= |r| && count <= |r'| && count <= |w|
    requires forall n | 0 <= n < count :: r[n] == r'[n]
    ensures WeightedNorm(r, w, count) == WeightedNorm(r', w, count)
  {
    if count > 0 {
      WeightedNormPrefix(r, r', w, count - 1);
    }
  }

  /** With non-negative weights the weighted squared norm is non-negative. */
  lemma {:induction false} WeightedNormNonnegative(r: seq<real>, w: seq<real>, count: nat)
    requires count <= |r| && count <= |w|
    requires forall n | 0 <= n < count :: w[n] >= 0.0
    ensures WeightedNorm(r, w, count) >= 0.0
  {
    if count > 0 {
      WeightedNormNonnegative(r, w, count - 1);
      var t := r[count - 1] * r[count - 1];
      assert t >= 0.0;
      assert t * w[count - 1] >= 0.0;
    }
  }

  /** Element e + 1 starts np nodes after element e, and still within the
      first nelements elements. */
  lemma NextElement(e: nat, nelements: nat, np: nat)
    requires e < nelements
    ensures (e + 1) * np == e * np + np && (e + 1) * np <= nelements * np
  {
    var k := nelements - (e + 1);
    assert (e + 1) * np == e * np + 1 * np;
    assert nelements * np == (e + 1) * np + k * np;
    assert k * np >= 0;
  }

  /** Entries [0, done) of x and r are updated, the rest untouched, and
      rdotr holds the weighted norm of the updated part. */
  ghost predicate UpdatedUpTo(x: seq<real>, r: seq<real>, p: seq<real>, Ap: seq<real>, invDegree: seq<real>,
                              alpha: real, xOut: seq<real>, rOut: seq<real>, rdotr: real, done: nat)
  {
    && |xOut| == |x| && |rOut| == |r| && done <= |x| && done <= |r| && done <= |p| && done <= |Ap|
    && done <= |invDegree|
    && (forall n | 0 <= n < done :: xOut[n] == x[n] + alpha * p[n] && rOut[n] == r[n] - alpha * Ap[n])
    && (forall n | done <= n < |x| :: xOut[n] == x[n])
    && (forall n | done <= n < |r| :: rOut[n] == r[n])
    && rdotr == WeightedNorm(rOut, invDegree, done)
  }

  /** The body of the kernel's inner loop for node n: x[n] += alpha p[n],
      r[n] -= alpha Ap[n], and the new r[n]^2 invDegree[n] added to the sum.
      It extends the updated prefix by one node. */
  method UpdateNode(x: seq<real>, r: seq<real>, p: seq<real>, Ap: seq<real>, invDegree: seq<real>, alpha: real,
                    xIn: seq<real>, rIn: seq<real>, rdotrIn: real, n: nat)
    returns (xOut: seq<real>, rOut: seq<real>, rdotr: real)
    requires n < |x| && n < |r| && n < |p| && n < |Ap| && n < |invDegree|
    requires UpdatedUpTo(x, r, p, Ap, invDegree, alpha, xIn, rIn, rdotrIn, n)
    ensures UpdatedUpTo(x, r, p, Ap, invDegree, alpha, xOut, rOut, rdotr, n + 1)
  {
    xOut := xIn[n := xIn[n] + alpha * p[n]];
    var rn := rIn[n] - alpha * Ap[n];
    rOut := rIn[n := rn];
    var term := rn * rn * invDegree[n];
    rdotr := rdotrIn + term;
    NormExtends(rIn, rOut, invDegree, rdotrIn, n, term);
  }

  /** Overwriting entry n adds its term to the unchanged sum below n. */
  lemma NormExtends(rIn: seq<real>, rOut: seq<real>, w: seq<real>, sum: real, n: nat, term: real)
    requires n < |rIn| == |rOut| && n < |w|
    requires forall i | 0 <= i < n :: rOut[i] == rIn[i]
    requires sum == WeightedNorm(rIn, w, n) && term == rOut[n] * rOut[n] * w[n]
    ensures sum + term == WeightedNorm(rOut, w, n + 1)
  {
    WeightedNormPrefix(rIn, rOut, w, n);
  }

  /** The inner loop of the kernel: the np nodes of one element, from base. */
  method UpdateElement(base: nat, np: nat, invDegree: seq<real>, p: seq<real>, Ap: seq<real>, alpha: real,
                       x: seq<real>, r: seq<real>, xIn: seq<real>, rIn: seq<real>, rdotrIn: real)
    returns (xOut: seq<real>, rOut: seq<real>, rdotr: real)
    requires base + np <= |x| && base + np <= |r| && base + np <= |p| && base + np <= |Ap| && base + np <= |invDegree|
    requires UpdatedUpTo(x, r, p, Ap, invDegree, alpha, xIn, rIn, rdotrIn, base)
    ensures UpdatedUpTo(x, r, p, Ap, invDegree, alpha, xOut, rOut, rdotr, base + np)
  {
    xOut, rOut, rdotr := xIn, rIn, rdotrIn;
    var i := 0;
    while i < np
      invariant i <= np
      invariant UpdatedUpTo(x, r, p, Ap, invDegree, alpha, xOut, rOut, rdotr, base + i)
    {
      xOut, rOut, rdotr := UpdateNode(x, r, p, Ap, invDegree, alpha, xOut, rOut, rdotr, base + i);
      i := i + 1;
    }
  }

  /** `adaptiveSerialUpdatePCGKernel<p_Nq>`: for each element e and node i,
      n = e*p_Np + i gets x[n] += alpha p[n] and r[n] -= alpha Ap[n], and the
      new r[n]^2 * invDegree[n] is added to the result. Nothing at or beyond
      Nelements*p_Np is touched; p, Ap and invDegree are only read. */
  method UpdatePCGKernel(nq: nat, nelements: nat, invDegree: seq<real>, p: seq<real>, Ap: seq<real>,
                         alpha: real, x: seq<real>, r: seq<real>)
    returns (xOut: seq<real>, rOut: seq<real>, rdotr: real)
    requires nelements * NodesPerElement(nq) <= |invDegree|
    requires nelements * NodesPerElement(nq) <= |p| && nelements * NodesPerElement(nq) <= |Ap|
    requires nelements * NodesPerElement(nq) <= |x| && nelements * NodesPerElement(nq) <= |r|
    ensures UpdatedUpTo(x, r, p, Ap, invDegree, alpha, xOut, rOut, rdotr, nelements * NodesPerElement(nq))
  {
    var np := NodesPerElement(nq);
    var total := nelements * np;
    xOut, rOut, rdotr := x, r, 0.0;
    var e := 0;
    var base := 0;
    while e < nelements
      invariant e <= nelements
      invariant base == e * np
      invariant UpdatedUpTo(x, r, p, Ap, invDegree, alpha, xOut, rOut, rdotr, base)
    {
      NextElement(e, nelements, np);
      xOut, rOut, rdotr := UpdateElement(base, np, invDegree, p, Ap, alpha, x, r, xOut, rOut, rdotr);
      base := base + np;
      e := e + 1;
    }
  }

  /** The `p_Nq` values the dispatcher has a kernel for. */
  predicate SupportedNq(nq: int) {
    2 <= nq <= 12
  }

  /** `adaptiveSerialUpdatePCG`: runs the kernel for Nq in 2..12; for any
      other Nq no case matches, nothing is written and 0 is returned. */
  method UpdatePCG(nq: int, nelements: nat, invDegree: seq<real>, p: seq<real>, Ap: seq<real>,
                   alpha: real, x: seq<real>, r: seq<real>)
    returns (xOut: seq<real>, rOut: seq<real>, rdotr: real)
    requires SupportedNq(nq) ==>
      && nelements * NodesPerElement(nq) <= |invDegree|
      && nelements * NodesPerElement(nq) <= |p| && nelements * NodesPerElement(nq) <= |Ap|
      && nelements * NodesPerElement(nq) <= |x| && nelements * NodesPerElement(nq) <= |r|
    ensures !SupportedNq(nq) ==> xOut == x && rOut == r && rdotr == 0.0
    ensures SupportedNq(nq) ==>
      UpdatedUpTo(x, r, p, Ap, invDegree, alpha, xOut, rOut, rdotr, nelements * NodesPerElement(nq))
  {
    if SupportedNq(nq) {
      xOut, rOut, rdotr := UpdatePCGKernel(nq, nelements, invDegree, p, Ap, alpha, x, r);
    } else {
      xOut, rOut, rdotr := x, r, 0.0;
    }
  }

  /** With non-negative inverse degrees the value an update returns is
      non-negative. */
  lemma UpdateNonnegative(x: seq<real>, r: seq<real>, p: seq<real>, Ap: seq<real>, invDegree: seq<real>,
                          alpha: real, xOut: seq<real>, rOut: seq<real>, rdotr: real, count: nat)
    requires UpdatedUpTo(x, r, p, Ap, invDegree, alpha, xOut, rOut, rdotr, count)
    requires forall n | 0 <= n < |invDegree| :: invDegree[n] >= 0.0
    ensures rdotr >= 0.0
  {
    WeightedNormNonnegative(rOut, invDegree, count);
  }
}
