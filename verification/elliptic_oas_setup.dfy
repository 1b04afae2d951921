/** The coarse-space part of the overlapping additive Schwarz (OAS)
    preconditioner setup of the elliptic solver
    (solvers/elliptic/src/ellipticOasSetup.c): the fine/coarse size
    constants, the choice of coarse problem, and the hard-wired linear
    prolongation P and restriction R between the degree-N
    Gauss-Lobatto-Legendre nodes `gllz` and the two linear coarse modes. */
module EllipticOasSetup {

  /** The size constants of the setup for fine degree N and coarse degree 1. */
  datatype Sizes = Sizes(nqFine: nat, nqCoarse: nat, npFine: nat, npCoarse: nat,
                         nblockVFine: nat, nblockVCoarse: nat)

  /** The coarse problem: the fine elliptic object itself, or a separate
      object set up on a degree-1 copy of the mesh. */
  datatype Coarse = FineItself | DegreeOneCopy

  /** What the setup stores in the preconditioner. */
  datatype Precon = Precon(coarse: Coarse, restriction: seq<real>, prolongation: seq<real>)

  /** Degree of the coarse space. */
  const CoarseDegree: nat := 1

  /** The number of `np`-node elements a block of `maxThreads` threads holds. */
  function BlockCount(maxThreads: nat, np: nat): (b: nat)
    requires np > 0
    ensures b * np <= maxThreads < (b + 1) * np
  {
    var q := maxThreads / np;
    BlockFits(maxThreads, np, q, maxThreads % np);
    q
  }

  lemma BlockFits(m: nat, np: nat, q: int, r: int)
    requires np > 0 && m == q * np + r && 0 <= r < np
    ensures q >= 0 && q * np <= m < (q + 1) * np
  {
    Distribute(q, np);
    if q < 0 {
      NegativeTimesPositive(q, np);
    }
  }

  lemma Distribute(q: int, np: int)
    ensures (q + 1) * np == q * np + np
  {
  }

  lemma NegativeTimesPositive(q: int, np: int)
    requires q < 0 && np > 0
    ensures q * np <= -np
  {
    var k: nat := -q - 1;
    assert q * np == -(k * np) - np;
  }

  function Cube(q: nat): nat {
    q * q * q
  }

  /** The size constants for fine degree N. */
  function OasSizes(N: nat, maxThreads: nat): (s: Sizes)
    ensures s.nqFine == N + 1 && s.nqCoarse == CoarseDegree + 1 == 2
    ensures s.npFine == s.nqFine * s.nqFine * s.nqFine > 0
    ensures s.npCoarse == 8
    ensures s.nblockVFine * s.npFine <= maxThreads < (s.nblockVFine + 1) * s.npFine
    ensures s.nblockVCoarse * s.npCoarse <= maxThreads < (s.nblockVCoarse + 1) * s.npCoarse
  {
    var nqFine := N + 1;
    var nqCoarse := CoarseDegree + 1;
    assert Cube(nqFine) >= 1 by { CubePositive(nqFine); }
    Sizes(nqFine, nqCoarse, Cube(nqFine), Cube(nqCoarse),
          BlockCount(maxThreads, Cube(nqFine)), BlockCount(maxThreads, Cube(nqCoarse)))
  }

  lemma CubePositive(q: nat)
    requires q >= 1
    ensures Cube(q) >= 1
  {
    assert q * q >= 1;
    assert q * q * q >= q * q;
  }

  /** The two linear coarse basis functions at fine node z:
      mode 0 is (1-z)/2, mode 1 is (1+z)/2. */
  function Hat(c: nat, z: real): real
    requires c < 2
  {
    if c == 0 then 0.5 * (1.0 - z) else 0.5 * (1.0 + z)
  }

  /** P is the NqFine x 2 matrix stored row-major (`P[n*2 + c]`), R the
      2 x NqFine matrix stored row-major (`R[c*NqFine + n]`), both holding
      the hat values at the fine nodes. */
  predicate Transfer(P: seq<real>, R: seq<real>, gllz: seq<real>, nq: nat)
    requires |gllz| >= nq
  {
    && |P| == |R| == 2 * nq
    && forall n, c | 0 <= n < nq && 0 <= c < 2 ::
         P[n * 2 + c] == Hat(c, gllz[n]) && R[c * nq + n] == Hat(c, gllz[n])
  }

  /** Entries of P and R written in the first `done` iterations. */
  predicate FilledUpTo(P: seq<real>, R: seq<real>, gllz: seq<real>, nq: nat, done: nat)
    requires |gllz| >= nq && |P| == |R| == 2 * nq && done <= nq
  {
    forall n | 0 <= n < done ::
      && P[n * 2] == Hat(0, gllz[n]) && P[n * 2 + 1] == Hat(1, gllz[n])
      && R[n] == Hat(0, gllz[n]) && R[nq + n] == Hat(1, gllz[n])
  }

  /** The "hard wire for linears" loop: fill P and R from zeroed arrays. */
  method BuildTransfer(gllz: seq<real>, nq: nat) returns (P: seq<real>, R: seq<real>)
    requires |gllz| >= nq
    ensures Transfer(P, R, gllz, nq)
  {
    P := seq(2 * nq, i => 0.0);
    R := seq(2 * nq, i => 0.0);
    var n := 0;
    while n < nq
      invariant 0 <= n <= nq && |P| == |R| == 2 * nq
      invariant FilledUpTo(P, R, gllz, nq, n)
    {
      P := P[n * 2 := Hat(0, gllz[n])][n * 2 + 1 := Hat(1, gllz[n])];
      R := R[n := Hat(0, gllz[n])][nq + n := Hat(1, gllz[n])];
      n := n + 1;
    }
    FilledTransfer(P, R, gllz, nq);
  }

  /** Once every iteration has run, P and R hold the transfer matrices. */
  lemma FilledTransfer(P: seq<real>, R: seq<real>, gllz: seq<real>, nq: nat)
    requires |gllz| >= nq && |P| == |R| == 2 * nq
    requires FilledUpTo(P, R, gllz, nq, nq)
    ensures Transfer(P, R, gllz, nq)
  {
    forall n, c | 0 <= n < nq && 0 <= c < 2
      ensures P[n * 2 + c] == Hat(c, gllz[n]) && R[c * nq + n] == Hat(c, gllz[n])
    {
      if c == 1 {
        assert c * nq + n == nq + n;
      }
    }
  }

  /** R is the transpose of P. */
  lemma RestrictionIsTranspose(P: seq<real>, R: seq<real>, gllz: seq<real>, nq: nat, n: nat, c: nat)
    requires |gllz| >= nq && Transfer(P, R, gllz, nq)
    requires n < nq && c < 2
    ensures R[c * nq + n] == P[n * 2 + c]
  {
    assert R[c * nq + n] == Hat(c, gllz[n]);
  }

  /** Each row of P sums to one and reproduces the coordinate: the two hats
      are a partition of unity that interpolates linear functions exactly. */
  lemma ProlongationReproducesLinears(P: seq<real>, R: seq<real>, gllz: seq<real>, nq: nat, n: nat)
    requires |gllz| >= nq && Transfer(P, R, gllz, nq)
    requires n < nq
    ensures P[n * 2] + P[n * 2 + 1] == 1.0
    ensures P[n * 2 + 1] - P[n * 2] == gllz[n]
  {
    assert P[n * 2 + 0] == Hat(0, gllz[n]);
    assert P[n * 2 + 1] == Hat(1, gllz[n]);
  }

  /** On Gauss-Lobatto nodes (first -1, last 1) the first fine node takes
      only coarse mode 0 and the last only coarse mode 1. */
  lemma ProlongationAtEndpoints(P: seq<real>, R: seq<real>, gllz: seq<real>, N: nat)
    requires |gllz| == N + 1 && Transfer(P, R, gllz, N + 1)
    requires gllz[0] == -1.0 && gllz[N] == 1.0
    ensures P[0] == 1.0 && P[1] == 0.0
    ensures P[N * 2] == 0.0 && P[N * 2 + 1] == 1.0
  {
    assert P[0 * 2 + 0] == Hat(0, gllz[0]) && P[0 * 2 + 1] == Hat(1, gllz[0]);
    assert P[N * 2 + 0] == Hat(0, gllz[N]) && P[N * 2 + 1] == Hat(1, gllz[N]);
  }

  /** Coarse-space setup for fine degree N: above degree 1 a separate
      degree-1 problem is set up, otherwise the fine problem serves as its
      own coarse problem; R and P are built on the fine nodes and stored. */
  method OasSetup(N: nat, gllz: seq<real>, maxThreads: nat) returns (pre: Precon, sizes: Sizes)
    requires |gllz| == N + 1
    ensures sizes == OasSizes(N, maxThreads)
    ensures pre.coarse == FineItself <==> N <= 1
    ensures Transfer(pre.prolongation, pre.restriction, gllz, sizes.nqFine)
  {
    sizes := OasSizes(N, maxThreads);
    var coarse := if N > 1 then DegreeOneCopy else FineItself;
    var P, R := BuildTransfer(gllz, sizes.nqFine);
    pre := Precon(coarse, R, P);
  }
}
