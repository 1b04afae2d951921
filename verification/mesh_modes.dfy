/**
 * The mode loops of the Vandermonde builders in src/meshBasis.c. For each
 * of the Npoints evaluation points, every builder walks the polynomial
 * modes of its element in a fixed order with a counter sk, and writes the
 * basis value of mode sk of point n at index n*Np + sk. The basis values
 * themselves (Jacobi polynomials) are not modelled: each loop records the
 * mode multi-indices it visits, in order.
 */
module MeshModes {

  /** A mode multi-index (i, j, k); 1D modes have j = k = 0, 2D modes k = 0. */
  datatype Mode = Mode(i: nat, j: nat, k: nat)

  datatype Shape = Line | Triangle | Quadrilateral | Tetrahedron | Hexahedron

  /** The modes of degree N of each element: total degree at most N on the
      simplices, degree at most N in each direction on the tensor elements. */
  predicate Admissible(shape: Shape, n: nat, m: Mode) {
    match shape
    case Line => m.i <= n && m.j == 0 && m.k == 0
    case Triangle => m.i + m.j <= n && m.k == 0
    case Quadrilateral => m.i <= n && m.j <= n && m.k == 0
    case Tetrahedron => m.i + m.j + m.k <= n
    case Hexahedron => m.i <= n && m.j <= n && m.k <= n
  }

  /** Lexicographic order on modes, the order of the nested loops. */
  predicate Before(a: Mode, b: Mode) {
    a.i < b.i || (a.i == b.i && (a.j < b.j || (a.j == b.j && a.k < b.k)))
  }

  /** `modes` lists exactly the admissible modes of the shape, each once, in
      loop order. */
  ghost predicate Enumerates(modes: seq<Mode>, shape: Shape, n: nat) {
    && (forall p | 0 <= p < |modes| :: Admissible(shape, n, modes[p]))
    && (forall p, q | 0 <= p < q < |modes| :: Before(modes[p], modes[q]))
    && (forall m | Admissible(shape, n, m) :: m in modes)
  }

  /** Loop state: the modes so far are admissible, in order, all before the
      current mode `cur`, and every admissible mode before `cur` is listed. */
  ghost predicate VisitedBefore(modes: seq<Mode>, shape: Shape, n: nat, cur: Mode) {
    && (forall p | 0 <= p < |modes| :: Admissible(shape, n, modes[p]) && Before(modes[p], cur))
    && (forall p, q | 0 <= p < q < |modes| :: Before(modes[p], modes[q]))
    && (forall m | Admissible(shape, n, m) && Before(m, cur) :: m in modes)
  }

  /** Visiting `cur` moves the state on to any later mode with no admissible
      mode in between. */
  lemma Visit(modes: seq<Mode>, shape: Shape, n: nat, cur: Mode, next: Mode)
    requires VisitedBefore(modes, shape, n, cur) && Admissible(shape, n, cur) && Before(cur, next)
    requires forall m | Admissible(shape, n, m) && Before(m, next) :: Before(m, cur) || m == cur
    ensures VisitedBefore(modes + [cur], shape, n, next)
  {
    var modes' := modes + [cur];
    forall m | Admissible(shape, n, m) && Before(m, next) ensures m in modes' {
      if m != cur {
        assert m in modes;
      }
    }
    assert modes'[|modes|] == cur;
  }

  /** Skipping from `cur` to `next` is sound when no admissible mode lies in
      between. */
  lemma Skip(modes: seq<Mode>, shape: Shape, n: nat, cur: Mode, next: Mode)
    requires VisitedBefore(modes, shape, n, cur) && Before(cur, next)
    requires forall m | Admissible(shape, n, m) && Before(m, next) :: Before(m, cur)
    ensures VisitedBefore(modes, shape, n, next)
  {
  }

  /** Once past every admissible mode, the state is a full enumeration. */
  lemma Finish(modes: seq<Mode>, shape: Shape, n: nat, cur: Mode)
    requires VisitedBefore(modes, shape, n, cur)
    requires forall m | Admissible(shape, n, m) :: Before(m, cur)
    ensures Enumerates(modes, shape, n)
  {
  }

  /** i*w as repeated addition, so that loop counters stay linear. */
  function Times(i: nat, w: nat): nat {
    if i == 0 then 0 else Times(i - 1, w) + w
  }

  lemma {:induction false} TimesIsProduct(i: nat, w: nat)
    ensures Times(i, w) == i * w
  {
    if i > 0 {
      TimesIsProduct(i - 1, w);
    }
  }

  /** Number of modes of total degree at most m in two variables,
      1 + 2 + ... + (m + 1); 0 for m < 0. */
  function Tri(m: int): nat
    decreases m + 1
  {
    if m < 0 then 0 else Tri(m - 1) + m + 1
  }

  /** Number of modes of total degree at most m in three variables. */
  function Tet(m: int): nat
    decreases m + 1
  {
    if m < 0 then 0 else Tet(m - 1) + Tri(m)
  }

  lemma {:induction false} TriClosedForm(m: nat)
    ensures 2 * Tri(m) == (m + 1) * (m + 2)
  {
    if m > 0 {
      TriClosedForm(m - 1);
    }
  }

  lemma {:induction false} TetClosedForm(m: nat)
    ensures 6 * Tet(m) == (m + 1) * (m + 2) * (m + 3)
  {
    TriClosedForm(m);
    if m > 0 {
      TetClosedForm(m - 1);
      CubicStep(m, (m + 1) * (m + 2));
    }
  }

  /** The products of TetClosedForm at m - 1 and at m, written over p = (m+1)(m+2). */
  lemma CubicStep(m: int, p: int)
    requires p == (m + 1) * (m + 2)
    ensures (m - 1 + 1) * (m - 1 + 2) * (m - 1 + 3) == m * p
    ensures (m + 1) * (m + 2) * (m + 3) == m * p + 3 * p
  {
    assert (m + 1) * (m + 2) * (m + 3) == p * (m + 3);
  }

  lemma ExactHalf(a: int, b: int)
    requires 2 * a == b
    ensures a == b / 2
  {
  }

  lemma ExactSixth(a: int, b: int)
    requires 6 * a == b
    ensures a == b / 6
  {
  }

  /** The mode loop of `meshVandermonde1D`: i = 0..N, Np = N + 1. */
  method LineModes(n: nat) returns (modes: seq<Mode>, np: nat)
    ensures np == n + 1 && |modes| == np
    ensures Enumerates(modes, Line, n)
  {
    np := n + 1;
    modes := [];
    var sk := 0;
    var i := 0;
    while i <= n
      invariant i <= n + 1 && sk == |modes| == i
      invariant VisitedBefore(modes, Line, n, Mode(i, 0, 0))
    {
      Visit(modes, Line, n, Mode(i, 0, 0), Mode(i + 1, 0, 0));
      modes := modes + [Mode(i, 0, 0)];
      sk := sk + 1;
      i := i + 1;
    }
    Finish(modes, Line, n, Mode(n + 1, 0, 0));
  }

  /** The mode loop of `meshVandermondeTri2D`: i = 0..N, j = 0..N-i,
      Np = (N+1)(N+2)/2. */
  method TriangleModes(n: nat) returns (modes: seq<Mode>, np: nat)
    ensures np == (n + 1) * (n + 2) / 2 && |modes| == np
    ensures Enumerates(modes, Triangle, n)
  {
    np := (n + 1) * (n + 2) / 2;
    modes := [];
    var sk := 0;
    var i := 0;
    while i <= n
      invariant i <= n + 1 && sk == |modes| && |modes| + Tri(n - i) == Tri(n)
      invariant VisitedBefore(modes, Triangle, n, Mode(i, 0, 0))
    {
      var j := 0;
      while j <= n - i
        invariant j <= n - i + 1 && sk == |modes| && |modes| + Tri(n - i) == Tri(n) + j
        invariant VisitedBefore(modes, Triangle, n, Mode(i, j, 0))
      {
        Visit(modes, Triangle, n, Mode(i, j, 0), Mode(i, j + 1, 0));
        modes := modes + [Mode(i, j, 0)];
        sk := sk + 1;
        j := j + 1;
      }
      Skip(modes, Triangle, n, Mode(i, j, 0), Mode(i + 1, 0, 0));
      i := i + 1;
    }
    Finish(modes, Triangle, n, Mode(n + 1, 0, 0));
    TriClosedForm(n);
    ExactHalf(Tri(n), (n + 1) * (n + 2));
  }

  /** The mode loop of `meshVandermondeQuad2D`: i, j = 0..N, Np = (N+1)^2. */
  method QuadrilateralModes(n: nat) returns (modes: seq<Mode>, np: nat)
    ensures np == (n + 1) * (n + 1) && |modes| == np
    ensures Enumerates(modes, Quadrilateral, n)
  {
    np := (n + 1) * (n + 1);
    modes := [];
    var sk := 0;
    var i := 0;
    while i <= n
      invariant i <= n + 1 && sk == |modes| == Times(i, n + 1)
      invariant VisitedBefore(modes, Quadrilateral, n, Mode(i, 0, 0))
    {
      var j := 0;
      while j <= n
        invariant j <= n + 1 && sk == |modes| == Times(i, n + 1) + j
        invariant VisitedBefore(modes, Quadrilateral, n, Mode(i, j, 0))
      {
        Visit(modes, Quadrilateral, n, Mode(i, j, 0), Mode(i, j + 1, 0));
        modes := modes + [Mode(i, j, 0)];
        sk := sk + 1;
        j := j + 1;
      }
      Skip(modes, Quadrilateral, n, Mode(i, j, 0), Mode(i + 1, 0, 0));
      i := i + 1;
    }
    Finish(modes, Quadrilateral, n, Mode(n + 1, 0, 0));
    TimesIsProduct(n + 1, n + 1);
  }

  /** The k loop of `meshVandermondeTet3D` for one (i, j): adds the
      N-i-j+1 modes (i, j, k). */
  method TetrahedronRow(n: nat, i: nat, j: nat, modesIn: seq<Mode>) returns (modes: seq<Mode>)
    requires i + j <= n && VisitedBefore(modesIn, Tetrahedron, n, Mode(i, j, 0))
    ensures |modes| == |modesIn| + (n - i - j + 1)
    ensures VisitedBefore(modes, Tetrahedron, n, Mode(i, j + 1, 0))
  {
    modes := modesIn;
    var k := 0;
    while k <= n - i - j
      invariant k <= n - i - j + 1 && |modes| == |modesIn| + k
      invariant VisitedBefore(modes, Tetrahedron, n, Mode(i, j, k))
    {
      Visit(modes, Tetrahedron, n, Mode(i, j, k), Mode(i, j, k + 1));
      modes := modes + [Mode(i, j, k)];
      k := k + 1;
    }
    Skip(modes, Tetrahedron, n, Mode(i, j, k), Mode(i, j + 1, 0));
  }

  /** The j and k loops of `meshVandermondeTet3D` for one i: adds the
      Tri(N-i) modes (i, j, k) with j + k <= N - i. */
  method TetrahedronSlab(n: nat, i: nat, modesIn: seq<Mode>) returns (modes: seq<Mode>)
    requires i <= n && VisitedBefore(modesIn, Tetrahedron, n, Mode(i, 0, 0))
    ensures |modes| == |modesIn| + Tri(n - i)
    ensures VisitedBefore(modes, Tetrahedron, n, Mode(i + 1, 0, 0))
  {
    modes := modesIn;
    var j := 0;
    while j <= n - i
      invariant j <= n - i + 1
      invariant |modes| + Tri(n - i - j) == |modesIn| + Tri(n - i)
      invariant VisitedBefore(modes, Tetrahedron, n, Mode(i, j, 0))
    {
      modes := TetrahedronRow(n, i, j, modes);
      j := j + 1;
    }
    Skip(modes, Tetrahedron, n, Mode(i, j, 0), Mode(i + 1, 0, 0));
  }

  /** The mode loop of `meshVandermondeTet3D`: i = 0..N, j = 0..N-i,
      k = 0..N-i-j, Np = (N+1)(N+2)(N+3)/6. */
  method TetrahedronModes(n: nat) returns (modes: seq<Mode>, np: nat)
    ensures np == (n + 1) * (n + 2) * (n + 3) / 6 && |modes| == np
    ensures Enumerates(modes, Tetrahedron, n)
  {
    np := (n + 1) * (n + 2) * (n + 3) / 6;
    modes := [];
    var i := 0;
    while i <= n
      invariant i <= n + 1 && |modes| + Tet(n - i) == Tet(n)
      invariant VisitedBefore(modes, Tetrahedron, n, Mode(i, 0, 0))
    {
      modes := TetrahedronSlab(n, i, modes);
      i := i + 1;
    }
    Finish(modes, Tetrahedron, n, Mode(n + 1, 0, 0));
    TetClosedForm(n);
    ExactSixth(Tet(n), (n + 1) * (n + 2) * (n + 3));
  }

  /** The j and k loops of `meshVandermondeHex3D` for one i: adds the
      (N+1)^2 modes (i, j, k). */
  method HexahedronPlane(n: nat, i: nat, modesIn: seq<Mode>) returns (modes: seq<Mode>)
    requires i <= n && VisitedBefore(modesIn, Hexahedron, n, Mode(i, 0, 0))
    ensures |modes| == |modesIn| + Times(n + 1, n + 1)
    ensures VisitedBefore(modes, Hexahedron, n, Mode(i + 1, 0, 0))
  {
    modes := modesIn;
    var j := 0;
    while j <= n
      invariant j <= n + 1 && |modes| == |modesIn| + Times(j, n + 1)
      invariant VisitedBefore(modes, Hexahedron, n, Mode(i, j, 0))
    {
      var k := 0;
      while k <= n
        invariant k <= n + 1 && |modes| == |modesIn| + Times(j, n + 1) + k
        invariant VisitedBefore(modes, Hexahedron, n, Mode(i, j, k))
      {
        Visit(modes, Hexahedron, n, Mode(i, j, k), Mode(i, j, k + 1));
        modes := modes + [Mode(i, j, k)];
        k := k + 1;
      }
      Skip(modes, Hexahedron, n, Mode(i, j, k), Mode(i, j + 1, 0));
      j := j + 1;
    }
    Skip(modes, Hexahedron, n, Mode(i, j, 0), Mode(i + 1, 0, 0));
  }

  /** The mode loop of `meshVandermondeHex3D`: i, j, k = 0..N, Np = (N+1)^3. */
  method HexahedronModes(n: nat) returns (modes: seq<Mode>, np: nat)
    ensures np == (n + 1) * (n + 1) * (n + 1) && |modes| == np
    ensures Enumerates(modes, Hexahedron, n)
  {
    np := (n + 1) * (n + 1) * (n + 1);
    var face := Times(n + 1, n + 1);
    modes := [];
    var i := 0;
    while i <= n
      invariant i <= n + 1 && |modes| == Times(i, face)
      invariant VisitedBefore(modes, Hexahedron, n, Mode(i, 0, 0))
    {
      modes := HexahedronPlane(n, i, modes);
      i := i + 1;
    }
    Finish(modes, Hexahedron, n, Mode(n + 1, 0, 0));
    TimesIsProduct(n + 1, n + 1);
    TimesIsProduct(n + 1, face);
    CubeAssociates(n + 1, face);
  }

  lemma CubeAssociates(m: nat, face: nat)
    requires face == m * m
    ensures m * face == m * m * m
  {
  }

  /** The Vandermonde write index `id = point * np + sk` of mode `sk` at
      evaluation point `point` stays inside the `npoints * np` array. */
  lemma VandermondeIndexInBounds(npoints: nat, np: nat, point: nat, sk: nat)
    requires point < npoints && sk < np
    ensures 0 <= point * np + sk < npoints * np
  {
    ProductMonotone(point + 1, npoints, np);
    NextMultiple(point, np);
  }

  /** Distinct (point, mode) pairs write distinct Vandermonde entries. */
  lemma VandermondeIndexInjective(np: nat, point: nat, sk: nat, point': nat, sk': nat)
    requires sk < np && sk' < np
    requires point * np + sk == point' * np + sk'
    ensures point == point' && sk == sk'
  {
    if point < point' {
      ProductMonotone(point + 1, point', np);
      NextMultiple(point, np);
    } else if point' < point {
      ProductMonotone(point' + 1, point, np);
      NextMultiple(point', np);
    }
  }

  lemma NextMultiple(a: nat, w: nat)
    ensures (a + 1) * w == a * w + w
  {
  }

  lemma ProductMonotone(a: nat, b: nat, w: nat)
    requires a <= b
    ensures a * w <= b * w
  {
    TimesMonotone(a, b, w);
    TimesIsProduct(a, w);
    TimesIsProduct(b, w);
  }

  lemma {:induction false} TimesMonotone(a: nat, b: nat, w: nat)
    requires a <= b
    ensures Times(a, w) <= Times(b, w)
  {
    if a < b {
      TimesMonotone(a, b - 1, w);
    }
  }
}
