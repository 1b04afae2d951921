/** Gauss and Gauss-Lobatto nodes on [-1, 1] and the surface cubature
    points of the reference triangle, as set up in src/meshBasis.c.

    The eigenvalue solve (LAPACK), the square root and the gamma-function
    weights are numerical collaborators: the square root and the
    eigensolver are parameters, and the eigensolver hands back the
    (node, weight) pairs the source derives from the eigen-decomposition. */
module MeshNodes {
  import opened DReals

  /** A quadrature node: abscissa `x` with its weight `w`. */
  datatype Node = Node(x: real, w: real)

  function Abscissae(ns: seq<Node>): (xs: seq<real>)
    ensures |xs| == |ns|
    ensures forall i | 0 <= i < |ns| :: xs[i] == ns[i].x
  {
    seq(|ns|, i requires 0 <= i < |ns| => ns[i].x)
  }

  function Weights(ns: seq<Node>): (ws: seq<real>)
    ensures |ws| == |ns|
    ensures forall i | 0 <= i < |ns| :: ws[i] == ns[i].w
  {
    seq(|ns|, i requires 0 <= i < |ns| => ns[i].w)
  }

  predicate Ascending(ns: seq<Node>) {
    forall i, j | 0 <= i < j < |ns| :: ns[i].x <= ns[j].x
  }

  // ---------------------------------------------------------------------
  // The exchange sort at the end of meshJacobiGQ
  // ---------------------------------------------------------------------

  /** Slots below n hold their final values: each is at most every later one. */
  predicate SortedBelow(r: seq<Node>, n: int) {
    forall i, j | 0 <= i < j < |r| && i < n :: r[i].x <= r[j].x
  }

  /** Slot n is at most every slot strictly between n and m. */
  predicate LeastSoFar(r: seq<Node>, n: nat, m: nat) {
    n < |r| && m <= |r| && forall k | n < k < m :: r[n].x <= r[k].x
  }

  /** The "sloppy sort": for each n, every later m with a smaller abscissa
      is swapped into slot n, and the weight travels with its node. */
  method ExchangeSort(ns: seq<Node>) returns (r: seq<Node>)
    ensures |r| == |ns|
    ensures Ascending(r)
    ensures multiset(r) == multiset(ns)
  {
    r := ns;
    var n := 0;
    while n < |r|
      invariant 0 <= n <= |r| == |ns|
      invariant multiset(r) == multiset(ns)
      invariant SortedBelow(r, n)
    {
      r := SmallestToFront(r, n);
      n := n + 1;
    }
  }

  /** The inner loop of the sort, for one n: afterwards slot n holds the
      least abscissa of slots n and later. */
  method SmallestToFront(r0: seq<Node>, n: nat) returns (r: seq<Node>)
    requires n < |r0| && SortedBelow(r0, n)
    ensures |r| == |r0| && multiset(r) == multiset(r0)
    ensures SortedBelow(r, n + 1)
  {
    r := r0;
    var m := n + 1;
    while m < |r|
      invariant n + 1 <= m <= |r| == |r0|
      invariant multiset(r) == multiset(r0)
      invariant SortedBelow(r, n) && LeastSoFar(r, n, m)
    {
      if r[n].x > r[m].x {
        SwapKeeps(r, n, m);
        r := r[n := r[m]][m := r[n]];
      }
      m := m + 1;
    }
  }

  /** Swapping a smaller later node into slot n keeps the finished prefix
      and extends slot n's minimality past m. */
  lemma SwapKeeps(r: seq<Node>, n: nat, m: nat)
    requires n < m < |r| && r[n].x > r[m].x
    requires SortedBelow(r, n) && LeastSoFar(r, n, m)
    ensures var r' := r[n := r[m]][m := r[n]];
      && multiset(r') == multiset(r) && SortedBelow(r', n) && LeastSoFar(r', n, m + 1)
  {
    var r' := r[n := r[m]][m := r[n]];
    forall i, j | 0 <= i < j < |r'| && i < n ensures r'[i].x <= r'[j].x {
      assert r'[i] == r[i];
      assert r'[j] == r[j] || r'[j] == r[m] || r'[j] == r[n];
    }
  }

  // ---------------------------------------------------------------------
  // The symmetric tridiagonal recurrence matrix of meshJacobiGQ
  // ---------------------------------------------------------------------

  /** `h1[n] = 2n + alpha + beta`. */
  function H1(alpha: real, beta: real, n: nat): real {
    2.0 * (n as real) + alpha + beta
  }

  /** Floating-point division: a zero divisor gives an infinity or a NaN. */
  function Divide(a: real, b: real): DReal {
    if b == 0.0 then NonFinite else Num(a / b)
  }

  /** Diagonal entry n, already doubled for the `J + J'` symmetrisation. */
  function Diagonal(alpha: real, beta: real, n: nat): DReal {
    var h := H1(alpha, beta, n);
    match Divide(-0.5 * (alpha * alpha - beta * beta), (h + 2.0) * h)
    case Num(q) => Num(q * 2.0)
    case NonFinite => NonFinite
  }

  /** The quantity under the square root of off-diagonal entry n. */
  function Radicand(alpha: real, beta: real, n: nat): DReal {
    var k := (n + 1) as real;
    var h := H1(alpha, beta, n);
    Divide(k * (k + alpha + beta) * (k + alpha) * (k + beta), (h + 1.0) * (h + 3.0))
  }

  /** Off-diagonal entry n, `2/(h1+2) * sqrt(radicand)`: non-finite when a
      divisor vanishes or the square root is taken of a negative number. */
  function OffDiagonal(alpha: real, beta: real, n: nat, sqrt: real -> real): DReal {
    var h := H1(alpha, beta, n);
    match Radicand(alpha, beta, n)
    case Num(q) =>
      if h + 2.0 == 0.0 || q < 0.0 then NonFinite else Num(2.0 / (h + 2.0) * sqrt(q))
    case NonFinite => NonFinite
  }

  /** The first diagonal entry is zeroed when `alpha + beta` is below ten
      machine epsilons (this is where `h1[0]` can vanish). */
  predicate ZeroFirst(alpha: real, beta: real, eps: real) {
    alpha + beta < 10.0 * eps
  }

  /** Entry (i, j) of the recurrence, before the first-entry override. */
  function Recurrence(alpha: real, beta: real, sqrt: real -> real, i: nat, j: nat): DReal {
    if i == j then Diagonal(alpha, beta, i)
    else if j == i + 1 then OffDiagonal(alpha, beta, i, sqrt)
    else if i == j + 1 then OffDiagonal(alpha, beta, j, sqrt)
    else Num(0.0)
  }

  /** Reference definition of the finished matrix, entry (i, j). */
  function Entry(alpha: real, beta: real, eps: real, sqrt: real -> real, i: nat, j: nat): DReal {
    if i == 0 && j == 0 && ZeroFirst(alpha, beta, eps) then Num(0.0)
    else Recurrence(alpha, beta, sqrt, i, j)
  }

  function JacobiMatrix(alpha: real, beta: real, N: nat, eps: real, sqrt: real -> real): (m: seq<seq<DReal>>)
    ensures |m| == N + 1
    ensures forall i | 0 <= i < |m| :: |m[i]| == N + 1
  {
    seq(N + 1, i requires 0 <= i <= N =>
      seq(N + 1, j requires 0 <= j <= N => Entry(alpha, beta, eps, sqrt, i, j)))
  }

  /** `+=` on a calloc'ed (zero) or already written entry. */
  function Add(a: DReal, b: DReal): DReal {
    match (a, b)
    case (Num(x), Num(y)) => Num(x + y)
    case _ => NonFinite
  }

  /** Entry (i, j) has been accumulated once row n of the build loop is done. */
  predicate Written(i: nat, j: nat, n: nat) {
    (i == j && i < n) || (j == i + 1 && i < n) || (i == j + 1 && j < n)
  }

  predicate BuiltUpTo(J: seq<seq<DReal>>, alpha: real, beta: real, N: nat, sqrt: real -> real, n: nat) {
    && |J| == N + 1
    && (forall i | 0 <= i <= N :: |J[i]| == N + 1)
    && (forall i, j | 0 <= i <= N && 0 <= j <= N ::
          J[i][j] == if Written(i, j, n) then Recurrence(alpha, beta, sqrt, i, j) else Num(0.0))
  }

  /** The build loop of meshJacobiGQ: accumulate the diagonal and both
      off-diagonals into a zeroed matrix, then apply the first-entry
      override. */
  method BuildJacobiMatrix(alpha: real, beta: real, N: nat, eps: real, sqrt: real -> real)
    returns (J: seq<seq<DReal>>)
    ensures J == JacobiMatrix(alpha, beta, N, eps, sqrt)
  {
    J := seq(N + 1, i => seq(N + 1, j => Num(0.0)));
    var n := 0;
    while n <= N
      invariant 0 <= n <= N + 1
      invariant BuiltUpTo(J, alpha, beta, N, sqrt, n)
    {
      J := AccumulateRow(J, alpha, beta, N, sqrt, n);
      n := n + 1;
    }
    if ZeroFirst(alpha, beta, eps) {
      J := J[0 := J[0][0 := Num(0.0)]];
    }
    BuiltIsMatrix(J, alpha, beta, N, eps, sqrt);
  }

  /** Adding to a calloc'ed entry stores the added value, finite or not. */
  lemma AddToZero(d: DReal)
    ensures Add(Num(0.0), d) == d
  {
  }

  /** One pass of the build loop: row n's diagonal, and for n < N the
      off-diagonal pair (n, n+1), (n+1, n). */
  method AccumulateRow(J0: seq<seq<DReal>>, alpha: real, beta: real, N: nat, sqrt: real -> real, n: nat)
    returns (J: seq<seq<DReal>>)
    requires n <= N && BuiltUpTo(J0, alpha, beta, N, sqrt, n)
    ensures BuiltUpTo(J, alpha, beta, N, sqrt, n + 1)
  {
    J := J0;
    AddToZero(Diagonal(alpha, beta, n));
    J := J[n := J[n][n := Add(J[n][n], Diagonal(alpha, beta, n))]];
    if n < N {
      var off := OffDiagonal(alpha, beta, n, sqrt);
      AddToZero(off);
      J := J[n := J[n][n + 1 := Add(J[n][n + 1], off)]];
      J := J[n + 1 := J[n + 1][n := Add(J[n + 1][n], off)]];
    }
  }

  /** The accumulated matrix, with the first entry overridden, is the
      reference matrix. */
  lemma BuiltIsMatrix(J: seq<seq<DReal>>, alpha: real, beta: real, N: nat, eps: real, sqrt: real -> real)
    requires |J| == N + 1 && forall i | 0 <= i <= N :: |J[i]| == N + 1
    requires forall i, j | 0 <= i <= N && 0 <= j <= N && !(i == 0 && j == 0) ::
      J[i][j] == if Written(i, j, N + 1) then Recurrence(alpha, beta, sqrt, i, j) else Num(0.0)
    requires J[0][0] == if ZeroFirst(alpha, beta, eps) then Num(0.0) else Recurrence(alpha, beta, sqrt, 0, 0)
    ensures J == JacobiMatrix(alpha, beta, N, eps, sqrt)
  {
    forall i | 0 <= i <= N
      ensures J[i] == JacobiMatrix(alpha, beta, N, eps, sqrt)[i]
    {
      assert forall j | 0 <= j <= N :: Written(i, j, N + 1) || Recurrence(alpha, beta, sqrt, i, j) == Num(0.0);
    }
  }

  /** `J = J + J'`: the matrix is symmetric and tridiagonal. */
  lemma JacobiMatrixSymmetric(alpha: real, beta: real, N: nat, eps: real, sqrt: real -> real, i: nat, j: nat)
    requires i <= N && j <= N
    ensures JacobiMatrix(alpha, beta, N, eps, sqrt)[i][j] == JacobiMatrix(alpha, beta, N, eps, sqrt)[j][i]
    ensures i + 1 < j || j + 1 < i ==> JacobiMatrix(alpha, beta, N, eps, sqrt)[i][j] == Num(0.0)
  {
  }

  /** For `alpha, beta > -1` the quantities under the square roots are
      nonnegative, except where `alpha + beta == -1` makes the first one
      0/0. */
  lemma RadicandNonnegative(alpha: real, beta: real, n: nat)
    requires alpha > -1.0 && beta > -1.0
    requires n == 0 ==> alpha + beta != -1.0
    ensures Radicand(alpha, beta, n).Num? && Radicand(alpha, beta, n).value >= 0.0
  {
    var k := (n + 1) as real;
    var h := H1(alpha, beta, n);
    var a, b, c := k + alpha, k + beta, k + alpha + beta;
    var top := k * c * a * b;
    var bottom := (h + 1.0) * (h + 3.0);
    assert Radicand(alpha, beta, n) == Divide(top, bottom);
    if n == 0 {
      FirstRadicand(k, a, b, c, h, top, bottom);
    } else {
      LaterRadicand(k, a, b, c, h, top, bottom);
    }
  }

  /** The radicand at n = 0, where `h + 1` is the factor `1 + alpha + beta`
      of the numerator. */
  lemma FirstRadicand(k: real, a: real, b: real, c: real, h: real, top: real, bottom: real)
    requires k == 1.0 && a > 0.0 && b > 0.0 && c != 0.0 && h + 1.0 == c && h + 3.0 > 0.0
    requires top == k * c * a * b && bottom == (h + 1.0) * (h + 3.0)
    ensures Divide(top, bottom).Num? && Divide(top, bottom).value >= 0.0
  {
    var ab := a * b;
    PositiveProduct(a, b, ab);
    Regroup(k, c, a, b, ab, top);
    CommonFactor(c, ab, h + 3.0, top, bottom);
  }

  /** The radicand at n >= 1, a quotient of products of positive factors. */
  lemma LaterRadicand(k: real, a: real, b: real, c: real, h: real, top: real, bottom: real)
    requires k > 0.0 && a > 0.0 && b > 0.0 && c > 0.0 && h + 1.0 > 0.0 && h + 3.0 > 0.0
    requires top == k * c * a * b && bottom == (h + 1.0) * (h + 3.0)
    ensures Divide(top, bottom).Num? && Divide(top, bottom).value >= 0.0
  {
    var kc := k * c;
    PositiveProduct(k, c, kc);
    var kca := kc * a;
    PositiveProduct(kc, a, kca);
    PositiveProduct(kca, b, top);
    PositiveProduct(h + 1.0, h + 3.0, bottom);
    PositiveQuotient(top, bottom);
  }

  lemma PositiveProduct(a: real, b: real, p: real)
    requires a > 0.0 && b > 0.0 && p == a * b
    ensures p > 0.0
  {
  }

  lemma PositiveQuotient(a: real, b: real)
    requires a > 0.0 && b > 0.0
    ensures a / b > 0.0
  {
  }

  /** `1 * c * a * b` regrouped as `c * (a * b)`. */
  lemma Regroup(k: real, c: real, a: real, b: real, ab: real, top: real)
    requires k == 1.0 && ab == a * b && top == k * c * a * b
    ensures top == c * ab
  {
  }

  /** `(c * p) / (c * q)` is positive for a nonzero c and positive p, q. */
  lemma CommonFactor(c: real, p: real, q: real, top: real, bottom: real)
    requires c != 0.0 && p > 0.0 && q > 0.0 && top == c * p && bottom == c * q
    ensures bottom != 0.0 && top / bottom > 0.0
  {
    assert top / bottom == p / q;
    PositiveQuotient(p, q);
  }

  /** With `alpha, beta > -1`, `alpha + beta != -1` (the documented
      exclusion of alpha = beta = -1/2) and a positive machine epsilon,
      every entry of the matrix is finite. */
  lemma JacobiMatrixFinite(alpha: real, beta: real, N: nat, eps: real, sqrt: real -> real, i: nat, j: nat)
    requires alpha > -1.0 && beta > -1.0 && alpha + beta != -1.0 && eps > 0.0
    requires i <= N && j <= N
    ensures JacobiMatrix(alpha, beta, N, eps, sqrt)[i][j].Num?
  {
    var m := if i <= j then i else j;
    var h := H1(alpha, beta, m);
    assert h + 2.0 > 0.0;
    if i == j {
      if !(i == 0 && ZeroFirst(alpha, beta, eps)) {
        assert h != 0.0;
        NonzeroProduct(h + 2.0, h);
      }
    } else if j == i + 1 || i == j + 1 {
      RadicandNonnegative(alpha, beta, m);
    }
  }

  lemma NonzeroProduct(a: real, b: real)
    requires a != 0.0 && b != 0.0
    ensures a * b != 0.0
  {
  }

  /** Conversely, at `alpha + beta == -1` the first off-diagonal pair is a
      NaN (0/0 under the square root). */
  lemma JacobiMatrixNaN(alpha: real, beta: real, N: nat, eps: real, sqrt: real -> real)
    requires alpha + beta == -1.0 && N >= 1
    ensures JacobiMatrix(alpha, beta, N, eps, sqrt)[0][1] == NonFinite
    ensures JacobiMatrix(alpha, beta, N, eps, sqrt)[1][0] == NonFinite
  {
    assert H1(alpha, beta, 0) + 1.0 == 0.0;
  }

  // ---------------------------------------------------------------------
  // meshJacobiGQ and meshJacobiGL
  // ---------------------------------------------------------------------

  /** The eigensolver returns one (node, weight) pair per matrix row. */
  ghost predicate Eigensolver(eigen: seq<seq<DReal>> -> seq<Node>) {
    forall m: seq<seq<DReal>> :: |eigen(m)| == |m|
  }

  /** The N-th order Gauss-Jacobi nodes: the single closed-form node for
      N = 0, otherwise the eigen-pairs of the recurrence matrix sorted by
      abscissa. */
  method JacobiGQ(alpha: real, beta: real, N: nat, eps: real, sqrt: real -> real,
                  eigen: seq<seq<DReal>> -> seq<Node>)
    returns (count: nat, nodes: seq<Node>)
    requires alpha > -1.0 && beta > -1.0
    requires Eigensolver(eigen)
    ensures count == N + 1 == |nodes|
    ensures N == 0 ==> nodes == [Node((alpha - beta) / (alpha + beta + 2.0), 2.0)]
    ensures Ascending(nodes)
    ensures N > 0 ==> multiset(nodes) == multiset(eigen(JacobiMatrix(alpha, beta, N, eps, sqrt)))
  {
    if N == 0 {
      return 1, [Node((alpha - beta) / (alpha + beta + 2.0), 2.0)];
    }
    var J := BuildJacobiMatrix(alpha, beta, N, eps, sqrt);
    var pairs := eigen(J);
    nodes := ExchangeSort(pairs);
    count := N + 1;
  }

  /** The N-th order Gauss-Lobatto abscissae: the endpoints -1 and 1 with the
      Gauss nodes of type (alpha+1, beta+1) and order N-2 in between. For
      N = 0 the second endpoint overwrites the first. */
  method JacobiGL(alpha: real, beta: real, N: nat, eps: real, sqrt: real -> real,
                  eigen: seq<seq<DReal>> -> seq<Node>)
    returns (count: nat, x: seq<real>)
    requires alpha > -2.0 && beta > -2.0
    requires Eigensolver(eigen)
    ensures count == N + 1 == |x|
    ensures x[N] == 1.0
    ensures N > 0 ==> x[0] == -1.0
    ensures N == 0 ==> x == [1.0]
    ensures N == 1 ==> x == [-1.0, 1.0]
    ensures N == 2 ==> x == [-1.0, (alpha - beta) / (alpha + beta + 4.0), 1.0]
    ensures N > 2 ==> exists g: seq<Node> ::
      && Ascending(g)
      && multiset(g) == multiset(eigen(JacobiMatrix(alpha + 1.0, beta + 1.0, N - 2, eps, sqrt)))
      && x[1..N] == Abscissae(g)
  {
    x := seq(N + 1, i => 0.0);
    x := x[0 := -1.0];
    x := x[N := 1.0];
    if N > 1 {
      var inner, g := JacobiGQ(alpha + 1.0, beta + 1.0, N - 2, eps, sqrt, eigen);
      var n := 1;
      while n < N
        invariant 1 <= n <= N && |x| == N + 1
        invariant x[0] == -1.0 && x[N] == 1.0
        invariant forall i | 1 <= i < n :: x[i] == g[i - 1].x
      {
        x := x[n := g[n - 1].x];
        n := n + 1;
      }
      assert x[1..N] == Abscissae(g);
      if N == 2 {
        assert x == [-1.0, (alpha - beta) / (alpha + beta + 4.0), 1.0];
      }
    }
    count := N + 1;
  }

  // ---------------------------------------------------------------------
  // Surface cubature points of meshCubatureSurfaceMatricesTri2D
  // ---------------------------------------------------------------------

  /** Vertices of the reference triangle, in the order its faces join them. */
  function Vertex(f: nat): (real, real) {
    if f % 3 == 0 then (-1.0, -1.0) else if f % 3 == 1 then (1.0, -1.0) else (-1.0, 1.0)
  }

  /** The point of face f at edge coordinate z: the affine map taking
      z = -1 to vertex f and z = 1 to vertex f+1. */
  function EdgePoint(f: nat, z: real): (real, real) {
    var a := Vertex(f);
    var b := Vertex(f + 1);
    ((1.0 - z) / 2.0 * a.0 + (1.0 + z) / 2.0 * b.0,
     (1.0 - z) / 2.0 * a.1 + (1.0 + z) / 2.0 * b.1)
  }

  /** Point n of every face is in place: face 0 at (z, -1), face 1 at
      (-z, z), face 2 at (-1, -z), each with weight w[n]. */
  predicate Placed(pointR: seq<real>, pointS: seq<real>, pointW: seq<real>, z: seq<real>, w: seq<real>, k: nat, n: nat)
    requires |z| == |w| == k && |pointR| == |pointS| == |pointW| == 3 * k && n < k
  {
    && pointR[n] == z[n] && pointS[n] == -1.0
    && pointR[k + n] == -z[n] && pointS[k + n] == z[n]
    && pointR[2 * k + n] == -1.0 && pointS[2 * k + n] == -z[n]
    && pointW[n] == w[n] && pointW[k + n] == w[n] && pointW[2 * k + n] == w[n]
  }

  predicate LaidOut(pointR: seq<real>, pointS: seq<real>, pointW: seq<real>, z: seq<real>, w: seq<real>, k: nat, done: nat)
    requires |z| == |w| == k && |pointR| == |pointS| == |pointW| == 3 * k && done <= k
  {
    forall n | 0 <= n < done :: Placed(pointR, pointS, pointW, z, w, k, n)
  }

  /** One iteration of the layout loop: the three points of index n. */
  method PlacePoint(pointR: seq<real>, pointS: seq<real>, pointW: seq<real>, z: seq<real>, w: seq<real>, k: nat, n: nat)
    returns (r: seq<real>, s: seq<real>, t: seq<real>)
    requires |z| == |w| == k && |pointR| == |pointS| == |pointW| == 3 * k && n < k
    requires LaidOut(pointR, pointS, pointW, z, w, k, n)
    ensures |r| == |s| == |t| == 3 * k
    ensures LaidOut(r, s, t, z, w, k, n + 1)
  {
    r := pointR[n := z[n]][k + n := -z[n]][2 * k + n := -1.0];
    s := pointS[n := -1.0][k + n := z[n]][2 * k + n := -z[n]];
    t := pointW[n := w[n]][k + n := w[n]][2 * k + n := w[n]];
    forall i | 0 <= i < n + 1
      ensures Placed(r, s, t, z, w, k, i)
    {
      if i < n {
        assert Placed(pointR, pointS, pointW, z, w, k, i);
      }
    }
  }

  /** The point layout of meshCubatureSurfaceMatricesTri2D for given
      per-face abscissae z and weights w; returns the number of points. */
  method SurfaceLayout(z: seq<real>, w: seq<real>)
    returns (count: nat, pointR: seq<real>, pointS: seq<real>, pointW: seq<real>)
    requires |z| == |w|
    ensures count == 3 * |z| == |pointR| == |pointS| == |pointW|
    ensures LaidOut(pointR, pointS, pointW, z, w, |z|, |z|)
  {
    var k := |z|;
    pointR := seq(3 * k, i => 0.0);
    pointS := seq(3 * k, i => 0.0);
    pointW := seq(3 * k, i => 0.0);
    var n := 0;
    while n < k
      invariant 0 <= n <= k
      invariant |pointR| == |pointS| == |pointW| == 3 * k
      invariant LaidOut(pointR, pointS, pointW, z, w, k, n)
    {
      pointR, pointS, pointW := PlacePoint(pointR, pointS, pointW, z, w, k, n);
      n := n + 1;
    }
    count := 3 * k;
  }

  /** Gauss points of order intNfp-1 on each of the three faces, weights
      repeated per face. (intNfp = 0 would make the Gauss routine write
      past a zero-length matrix.) */
  method CubatureSurfacePoints(intNfp: nat, eps: real, sqrt: real -> real,
                               eigen: seq<seq<DReal>> -> seq<Node>)
    returns (count: nat, pointR: seq<real>, pointS: seq<real>, pointW: seq<real>, z: seq<real>, w: seq<real>)
    requires intNfp >= 1
    requires Eigensolver(eigen)
    ensures count == 3 * intNfp
    ensures |z| == |w| == intNfp && |pointR| == |pointS| == |pointW| == count
    ensures LaidOut(pointR, pointS, pointW, z, w, intNfp, intNfp)
    ensures forall i, j | 0 <= i < j < intNfp :: z[i] <= z[j]
    ensures intNfp == 1 ==> z == [0.0] && w == [2.0]
    ensures intNfp > 1 ==> exists g: seq<Node> ::
      && |g| == intNfp && Ascending(g)
      && multiset(g) == multiset(eigen(JacobiMatrix(0.0, 0.0, intNfp - 1, eps, sqrt)))
      && z == Abscissae(g) && w == Weights(g)
  {
    var gq, nodes := JacobiGQ(0.0, 0.0, intNfp - 1, eps, sqrt, eigen);
    z := Abscissae(nodes);
    w := Weights(nodes);
    count, pointR, pointS, pointW := SurfaceLayout(z, w);
  }

  /** Point n of face f lies on edge f of the reference triangle, at the
      position its Gauss abscissa z[n] names; and with ascending abscissae
      the faces are traversed counter-clockwise. */
  lemma SurfacePointsOnEdges(pointR: seq<real>, pointS: seq<real>, pointW: seq<real>, z: seq<real>, w: seq<real>,
                             k: nat, f: nat, n: nat)
    requires |z| == |w| == k && |pointR| == |pointS| == |pointW| == 3 * k
    requires LaidOut(pointR, pointS, pointW, z, w, k, k)
    requires f < 3 && n < k
    ensures (pointR[f * k + n], pointS[f * k + n]) == EdgePoint(f, z[n])
    ensures pointW[f * k + n] == w[n]
  {
    assert Placed(pointR, pointS, pointW, z, w, k, n);
    if f == 0 {
      assert f * k + n == n;
    } else if f == 1 {
      assert f * k + n == k + n;
    } else {
      assert f * k + n == 2 * k + n;
    }
  }

  /** Points with abscissa in [-1, 1] stay on the closed edge segment. */
  lemma EdgePointOnSegment(f: nat, z: real)
    requires f < 3 && -1.0 <= z <= 1.0
    ensures f == 0 ==> EdgePoint(f, z).1 == -1.0 && -1.0 <= EdgePoint(f, z).0 <= 1.0
    ensures f == 1 ==> EdgePoint(f, z).0 + EdgePoint(f, z).1 == 0.0 && -1.0 <= EdgePoint(f, z).0 <= 1.0
    ensures f == 2 ==> EdgePoint(f, z).0 == -1.0 && -1.0 <= EdgePoint(f, z).1 <= 1.0
  {
  }
}
