/**
 * Level recursion and per-level configuration of the parAlmond AMG setup
 * (libs/parAlmond/src/agmgSetup/agmgSetup.cpp).
 *
 * The operators themselves are opaque: a level carries a summary of its
 * operator (global and local row/column counts), and the coarsening of a
 * level (strength graph, aggregation, prolongation, transpose, Galerkin
 * product, level construction) is a caller-supplied function. The spectral
 * radius estimate `rhoDinvA` is a caller-supplied function too. Vector
 * allocations are recorded by their lengths.
 */
module AgmgSetup {
  import opened Optional
  import opened DReals

  /** Summary of a distributed operator: `globalRowStarts[size]` and the
      local row and column counts. */
  datatype Operator = Operator(globalRows: nat, localRows: nat, localCols: nat)

  datatype SmoothType = DampedJacobi | Chebyshev | OtherSmoother(code: nat)

  datatype CycleType = VCycle | KCycle

  datatype Smoother = Smoother(stype: SmoothType, chebyshevIterations: int,
                               lambda: DReal, lambda0: DReal, lambda1: DReal)

  /** Host scratch vectors, each recorded by its length when allocated. */
  datatype Vectors = Vectors(x: Option<nat>, rhs: Option<nat>, res: Option<nat>,
                             ck: Option<nat>, vk: Option<nat>, wk: Option<nat>)

  /** Device mirrors: the operator, restriction and prolongation, and the
      device copies of the host vectors. */
  datatype Mirrors = Mirrors(A: bool, R: bool, P: bool, vecs: Vectors)

  datatype Level = Level(A: Operator, nrows: nat, ncols: nat, smoother: Smoother,
                         host: Vectors, device: Mirrors)

  /** What `coarsenAgmgLevel` builds from a level's operator (all it reads
      of the level): the coarse level and the column count of its
      restriction operator R. */
  datatype Coarsening = Coarsening(coarse: Level, rNcols: nat)

  /** Solver options read by the setup; `numKCycles` is `NUMKCYCLES`. */
  datatype Config = Config(stype: SmoothType, chebyshevIterations: int, ctype: CycleType, numKCycles: int)

  /** The solver fields the setup writes. `coarseA` is the operator the
      coarse solver was set up on; `scratch` is the scratch space in dfloats. */
  datatype Solver = Solver(levels: map<nat, Level>, numLevels: nat, startLev: nat, baseLevel: int,
                           coarseA: Option<Operator>, scratch: nat)

  const NoVectors := Vectors(None, None, None, None, None, None)

  /** The termination test of the setup loop, applied to the level just
      coarsened and the new level: the new level is small enough, or it is
      not at least twice as small as the previous one. */
  predicate Stops(prev: Level, next: Level, target: int) {
    next.A.globalRows <= target || prev.A.globalRows < 2 * next.A.globalRows
  }

  /** The `Ncols` update of `coarsenAgmgLevel`: widened to cover R's columns. */
  function Widen(l: Level, rNcols: nat): (r: Level)
    ensures r.ncols >= l.ncols && r.ncols >= rNcols
    ensures r.ncols == l.ncols || r.ncols == rNcols
    ensures r.A == l.A && r.nrows == l.nrows && r.smoother == l.smoother && r.host == l.host && r.device == l.device
  {
    l.(ncols := if l.ncols > rNcols then l.ncols else rNcols)
  }

  /** The setup loop goes on after making `next` from `prev`: the new level
      is still above the target and at most half the size of the previous. */
  predicate Halves(prev: Level, next: Level, target: int) {
    target < next.A.globalRows && 2 * next.A.globalRows <= prev.A.globalRows
  }

  /** The operator of `next` is the coarsening of the operator of `prev`. */
  predicate OperatorStep(prev: Level, next: Level, coarsen: Operator -> Coarsening) {
    next.A == coarsen(prev.A).coarse.A
  }

  /** The level's `Ncols` covers the columns of the R its coarsening built. */
  predicate CoversR(l: Level, coarsen: Operator -> Coarsening) {
    l.ncols >= coarsen(l.A).rNcols
  }

  /** The levels the setup loop leaves, from a level that is not small
      enough: the level, the coarsening of it, the coarsening of that, ...,
      up to and including the first level at which the test stops the loop.
      Each level but the last was coarsened, which widened its `Ncols`. A
      non-negative target makes the sizes of continued levels at least
      halve, so the loop ends. */
  function Hierarchy(fine: Level, target: int, coarsen: Operator -> Coarsening): (ls: seq<Level>)
    requires target >= 0
    ensures |ls| >= 2 && ls[0].A == fine.A && ls[0].ncols >= fine.ncols
    ensures forall i | 1 <= i < |ls| :: OperatorStep(ls[i - 1], ls[i], coarsen)
    ensures forall i {:trigger CoversR(ls[i], coarsen)} | 0 <= i < |ls| - 1 :: CoversR(ls[i], coarsen)
    ensures Stops(ls[|ls| - 2], ls[|ls| - 1], target)
    ensures forall i | 1 <= i < |ls| - 1 :: Halves(ls[i - 1], ls[i], target)
    // exactly: each level is the coarsening of the one before, widened by
    // its own coarsening when it is coarsened in turn
    ensures ls[0] == Widen(fine, coarsen(fine.A).rNcols)
    ensures forall i | 1 <= i < |ls| - 1 :: CoarsenedAt(ls, i, coarsen)
    ensures ls[|ls| - 1] == coarsen(ls[|ls| - 2].A).coarse
    decreases fine.A.globalRows
  {
    var c := coarsen(fine.A);
    var w := Widen(fine, c.rNcols);
    if Stops(fine, c.coarse, target) then [w, c.coarse]
    else
      var rest := Hierarchy(c.coarse, target, coarsen);
      var ls := [w] + rest;
      assert forall i | 1 <= i < |ls| :: ls[i] == rest[i - 1];
      ConsCoarsened(w, rest, coarsen);
      ls
  }

  /** A level put in front of a hierarchy whose first level is the
      coarsening of it keeps every level coarsened from the one before. */
  lemma ConsCoarsened(w: Level, rest: seq<Level>, coarsen: Operator -> Coarsening)
    requires |rest| >= 2
    requires rest[0] == Widen(coarsen(w.A).coarse, coarsen(rest[0].A).rNcols)
    requires forall i | 1 <= i < |rest| - 1 :: CoarsenedAt(rest, i, coarsen)
    ensures forall i | 1 <= i < |rest| :: CoarsenedAt([w] + rest, i, coarsen)
  {
    var ls := [w] + rest;
    forall i | 1 <= i < |rest| ensures CoarsenedAt(ls, i, coarsen) {
      if i > 1 {
        assert CoarsenedAt(rest, i - 1, coarsen);
      }
    }
  }

  /** Level i of a hierarchy is the coarsening of level i - 1, widened by
      its own coarsening. */
  predicate CoarsenedAt(ls: seq<Level>, i: nat, coarsen: Operator -> Coarsening)
    requires 1 <= i < |ls|
  {
    ls[i] == Widen(coarsen(ls[i - 1].A).coarse, coarsen(ls[i].A).rNcols)
  }

  /** Continued levels strictly shrink, so the hierarchy's sizes strictly
      decrease up to its last level. */
  lemma HalvesShrinks(prev: Level, next: Level, target: int)
    requires target >= 0 && Halves(prev, next, target)
    ensures next.A.globalRows < prev.A.globalRows && !Stops(prev, next, target)
  {
  }

  /** Slots `at ..` of r hold the levels of ls in order. */
  predicate InSlots(r: map<nat, Level>, at: nat, ls: seq<Level>) {
    forall j: nat | at <= j < at + |ls| :: j in r && r[j] == ls[j - at]
  }

  /** Puts ls[i] in slot at+i. */
  function Install(levels: map<nat, Level>, at: nat, ls: seq<Level>): (r: map<nat, Level>)
    ensures InSlots(r, at, ls)
    ensures forall j | j in levels && !(at <= j < at + |ls|) :: j in r && r[j] == levels[j]
    ensures forall j | j in r :: j in levels || at <= j < at + |ls|
    decreases |ls|
  {
    if |ls| == 0 then levels
    else
      var front := ls[..|ls| - 1];
      assert forall i | 0 <= i < |front| :: ls[i] == front[i];
      Install(levels, at, front)[at + |ls| - 1 := ls[|ls| - 1]]
  }

  /** `setupAgmgSmoother`: records the smoother type and Chebyshev iteration
      count; damped Jacobi takes `lambda = (4/3)/rho`, Chebyshev takes the
      interval [rho/10, rho]; other smoothers keep their parameters. */
  function SetupSmoother(l: Level, s: SmoothType, chebyshevIterations: int, rho: real): (r: Level)
    ensures r.smoother.stype == s && r.smoother.chebyshevIterations == chebyshevIterations
    ensures s == DampedJacobi && rho != 0.0 ==> r.smoother.lambda.Num? && r.smoother.lambda.value * rho == 4.0 / 3.0
    ensures s == DampedJacobi && rho == 0.0 ==> r.smoother.lambda == NonFinite
    ensures s == Chebyshev ==>
      r.smoother.lambda1 == Num(rho) && r.smoother.lambda0.Num? && 10.0 * r.smoother.lambda0.value == rho
    ensures s != DampedJacobi ==> r.smoother.lambda == l.smoother.lambda
    ensures s != Chebyshev ==> r.smoother.lambda0 == l.smoother.lambda0 && r.smoother.lambda1 == l.smoother.lambda1
    ensures r.A == l.A && r.nrows == l.nrows && r.ncols == l.ncols && r.host == l.host && r.device == l.device
  {
    var sm := l.smoother.(stype := s, chebyshevIterations := chebyshevIterations);
    var sm' :=
      if s == DampedJacobi then sm.(lambda := if rho != 0.0 then Num((4.0 / 3.0) / rho) else NonFinite)
      else if s == Chebyshev then sm.(lambda1 := Num(rho), lambda0 := Num(rho / 10.0))
      else sm;
    l.(smoother := sm')
  }

  /** Level k takes part in K-cycle acceleration. */
  predicate KCycleLevel(k: int, ctype: CycleType, numKCycles: int) {
    ctype == KCycle && 0 < k < numKCycles + 1
  }

  /** `allocateAgmgVectors`: x (Ncols) and rhs (Nrows) for every level but
      the finest, res (Ncols) for every level, and ck (Ncols), vk and wk
      (Nrows) for the K-cycle levels. Vectors not allocated are left as
      they were. */
  function AllocateVectors(l: Level, k: int, ctype: CycleType, numKCycles: int): (r: Level)
    ensures r.host.res == Some(l.ncols)
    ensures r.host.x == (if k != 0 then Some(l.ncols) else l.host.x)
    ensures r.host.rhs == (if k != 0 then Some(l.nrows) else l.host.rhs)
    ensures KCycleLevel(k, ctype, numKCycles) ==>
      r.host.ck == Some(l.ncols) && r.host.vk == Some(l.nrows) && r.host.wk == Some(l.nrows)
    ensures !KCycleLevel(k, ctype, numKCycles) ==>
      r.host.ck == l.host.ck && r.host.vk == l.host.vk && r.host.wk == l.host.wk
    ensures r.A == l.A && r.nrows == l.nrows && r.ncols == l.ncols && r.smoother == l.smoother && r.device == l.device
  {
    var h := l.host;
    var h1 := if k != 0 then h.(x := Some(l.ncols), rhs := Some(l.nrows)) else h;
    var h2 := h1.(res := Some(l.ncols));
    var h3 := if KCycleLevel(k, ctype, numKCycles) then h2.(ck := Some(l.ncols), vk := Some(l.nrows), wk := Some(l.nrows)) else h2;
    l.(host := h3)
  }

  /** A device vector mirroring an allocated host vector of the given length. */
  function Mirror(host: Option<nat>, dev: Option<nat>, len: nat): (r: Option<nat>)
    ensures host.Some? ==> r == Some(len)
    ensures host.None? ==> r == dev
  {
    if host.Some? then Some(len) else dev
  }

  /** `syncAgmgToDevice`: the operator always; R and P for every level but
      the finest; a device vector for each allocated host vector, the
      K-cycle ones only under K-cycle and only when ck is allocated. */
  function SyncToDevice(l: Level, k: int, ctype: CycleType): (r: Level)
    ensures r.device.A
    ensures k != 0 ==> r.device.R && r.device.P
    ensures k == 0 ==> r.device.R == l.device.R && r.device.P == l.device.P
    ensures l.host.x.Some? ==> r.device.vecs.x == Some(l.ncols)
    ensures l.host.rhs.Some? ==> r.device.vecs.rhs == Some(l.nrows)
    ensures l.host.res.Some? ==> r.device.vecs.res == Some(l.ncols)
    ensures ctype == KCycle && l.host.ck.Some? ==>
      r.device.vecs.ck == Some(l.ncols) && r.device.vecs.vk == Some(l.nrows) && r.device.vecs.wk == Some(l.nrows)
    ensures !(ctype == KCycle && l.host.ck.Some?) ==>
      r.device.vecs.ck == l.device.vecs.ck && r.device.vecs.vk == l.device.vecs.vk && r.device.vecs.wk == l.device.vecs.wk
    ensures r.A == l.A && r.nrows == l.nrows && r.ncols == l.ncols && r.smoother == l.smoother && r.host == l.host
  {
    var d := l.device.(A := true);
    var d1 := if k != 0 then d.(R := true, P := true) else d;
    var v := d1.vecs;
    var v1 := v.(x := Mirror(l.host.x, v.x, l.ncols), rhs := Mirror(l.host.rhs, v.rhs, l.nrows),
                 res := Mirror(l.host.res, v.res, l.ncols));
    var v2 := if ctype == KCycle && l.host.ck.Some? then v1.(ck := Some(l.ncols), vk := Some(l.nrows), wk := Some(l.nrows)) else v1;
    l.(device := d1.(vecs := v2))
  }

  /** What the final loop guarantees of level k: the configured smoother
      type, a residual vector and a device operator, and below the finest
      level an x vector and device copies of R and P. */
  predicate ReadyLevel(l: Level, k: int, cfg: Config) {
    && l.smoother.stype == cfg.stype && l.host.res == Some(l.ncols) && l.device.A
    && (k != 0 ==> l.host.x == Some(l.ncols) && l.device.R && l.device.P)
  }

  /** `after` is `before` made ready as level k, operator and sizes kept. */
  predicate Configured(before: Level, after: Level, k: int, cfg: Config) {
    && after.A == before.A && after.nrows == before.nrows && after.ncols == before.ncols
    && ReadyLevel(after, k, cfg)
  }

  /** One iteration of the setup's final loop over the new levels. */
  function ConfigureLevel(l: Level, k: int, cfg: Config, rho: Operator -> real): (r: Level)
    ensures Configured(l, r, k, cfg)
  {
    var l1 := SetupSmoother(l, cfg.stype, cfg.chebyshevIterations, rho(l.A));
    var l2 := AllocateVectors(l1, k, cfg.ctype, cfg.numKCycles);
    SyncToDevice(l2, k, cfg.ctype)
  }

  /** The final loop of the setup, `for n in [from, numLevels)`,
      configuring each of those levels once and no other. */
  method ConfigureLevels(levels: map<nat, Level>, from: nat, numLevels: nat, cfg: Config, rho: Operator -> real)
    returns (r: map<nat, Level>)
    requires forall i | from <= i < numLevels :: i in levels
    ensures r.Keys == levels.Keys
    ensures forall i | i in levels && !(from <= i < numLevels) :: r[i] == levels[i]
    ensures forall i | from <= i < numLevels :: Configured(levels[i], r[i], i, cfg)
    ensures forall i {:trigger ConfigureLevel(levels[i], i, cfg, rho)} | from <= i < numLevels ::
      r[i] == ConfigureLevel(levels[i], i, cfg, rho)
  {
    var f := (l: Level, k: nat) => ConfigureLevel(l, k, cfg, rho);
    r := levels;
    var n := from;
    while n < numLevels
      invariant from <= n && (n <= numLevels || n == from)
      invariant AppliedUpTo(levels, r, from, n, f)
    {
      ApplyStep(levels, r, from, n, f);
      r := r[n := f(r[n], n)];
      n := n + 1;
    }
    forall i | from <= i < numLevels ensures r[i] == ConfigureLevel(levels[i], i, cfg, rho) {
      assert r[i] == f(levels[i], i);
    }
  }

  /** Slots `from .. n-1` of r hold f of their level in `levels` and their
      slot number; every other slot is as in `levels`. */
  predicate AppliedUpTo(levels: map<nat, Level>, r: map<nat, Level>, from: nat, n: nat, f: (Level, nat) -> Level) {
    && r.Keys == levels.Keys
    && (forall i | i in levels && !(from <= i < n) :: r[i] == levels[i])
    && (forall i | from <= i < n :: i in levels && r[i] == f(levels[i], i))
  }

  /** One iteration of a loop over the slots updates slot n and no other. */
  lemma ApplyStep(levels: map<nat, Level>, r: map<nat, Level>, from: nat, n: nat, f: (Level, nat) -> Level)
    requires from <= n && n in levels && AppliedUpTo(levels, r, from, n, f)
    ensures AppliedUpTo(levels, r[n := f(r[n], n)], from, n + 1, f)
  {
    assert r[n] == levels[n];
  }

  /** The levels the setup puts in slots `AMGstartLev ..`: A alone when it
      is already small, else the hierarchy from A. */
  function NewLevels(A: Level, target: int, coarsen: Operator -> Coarsening): (ls: seq<Level>)
    requires target >= 0
    ensures |ls| >= 1 && ls[0].A == A.A && ls[0].ncols >= A.ncols
    ensures A.A.globalRows <= target ==> ls == [A]
    ensures A.A.globalRows > target ==> |ls| >= 2 && ls[0] == Widen(A, coarsen(A.A).rNcols)
  {
    if A.A.globalRows <= target then [A] else Hierarchy(A, target, coarsen)
  }

  /** Slots `start .. n` of `levels` hold a hierarchy for A: level A alone
      when it is already small, otherwise a chain of at least two levels in
      which each operator is the coarsening of the one before, the sizes
      halve until the last level, and the last pair meets the stop test. */
  ghost predicate HierarchyIn(levels: map<nat, Level>, start: nat, n: nat, A: Level, target: int,
                              coarsen: Operator -> Coarsening)
  {
    && start < n
    && (forall i | start <= i < n :: i in levels)
    && levels[start].A == A.A && levels[start].ncols >= A.ncols
    && (A.A.globalRows <= target ==> n == start + 1 && levels[start].ncols == A.ncols)
    && (A.A.globalRows > target ==>
      && n >= start + 2
      && Stops(levels[n - 2], levels[n - 1], target)
      && (forall i | start < i < n - 1 :: Halves(levels[i - 1], levels[i], target))
      && (forall i | start < i < n :: OperatorStep(levels[i - 1], levels[i], coarsen))
      && (forall i {:trigger CoversR(levels[i], coarsen)} | start <= i < n - 1 :: CoversR(levels[i], coarsen)))
  }

  /** A hierarchy chain put in slots `start ..` of a map reads the same there. */
  lemma ChainInstalled(r: map<nat, Level>, start: nat, ls: seq<Level>, target: int,
                       coarsen: Operator -> Coarsening)
    requires |ls| >= 2
    requires InSlots(r, start, ls)
    requires Stops(ls[|ls| - 2], ls[|ls| - 1], target)
    requires forall i | 1 <= i < |ls| - 1 :: Halves(ls[i - 1], ls[i], target)
    requires forall i | 1 <= i < |ls| :: OperatorStep(ls[i - 1], ls[i], coarsen)
    requires forall i {:trigger CoversR(ls[i], coarsen)} | 0 <= i < |ls| - 1 :: CoversR(ls[i], coarsen)
    ensures Stops(r[start + |ls| - 2], r[start + |ls| - 1], target)
    ensures forall i | start < i < start + |ls| - 1 :: Halves(r[i - 1], r[i], target)
    ensures forall i | start < i < start + |ls| :: OperatorStep(r[i - 1], r[i], coarsen)
    ensures forall i {:trigger CoversR(r[i], coarsen)} | start <= i < start + |ls| - 1 :: CoversR(r[i], coarsen)
  {
    var n := start + |ls|;
    assert r[n - 2] == ls[|ls| - 2] && r[n - 1] == ls[|ls| - 1];
    forall i | start < i < n ensures OperatorStep(r[i - 1], r[i], coarsen) {
      assert r[i - 1] == ls[i - start - 1] && r[i] == ls[i - start];
    }
    forall i | start < i < n - 1 ensures Halves(r[i - 1], r[i], target) {
      assert r[i - 1] == ls[i - start - 1] && r[i] == ls[i - start];
    }
    forall i | start <= i < n - 1 ensures CoversR(r[i], coarsen) {
      assert r[i] == ls[i - start];
    }
  }

  /** The coarsening loop of `solver_t::AMGSetup`: the new levels go into
      slots `start ..`, every other slot is kept. */
  method BuildLevels(levels: map<nat, Level>, start: nat, A: Level, target: int,
                     coarsen: Operator -> Coarsening) returns (r: map<nat, Level>, n: nat)
    requires target >= 0
    ensures HierarchyIn(r, start, n, A, target, coarsen)
    ensures n == start + |NewLevels(A, target, coarsen)| && InSlots(r, start, NewLevels(A, target, coarsen))
    ensures forall j | j in levels && !(start <= j < n) :: j in r && r[j] == levels[j]
    ensures forall j | j in r :: j in levels || start <= j < n
  {
    var ls := NewLevels(A, target, coarsen);
    n := start + |ls|;
    r := Install(levels, start, ls);
    NewLevelsInstalled(r, start, n, ls, A, target, coarsen);
  }

  /** The new levels put in slots `start ..` form a hierarchy for A there. */
  lemma NewLevelsInstalled(r: map<nat, Level>, start: nat, n: nat, ls: seq<Level>, A: Level, target: int,
                           coarsen: Operator -> Coarsening)
    requires target >= 0 && ls == NewLevels(A, target, coarsen) && n == start + |ls|
    requires InSlots(r, start, ls)
    ensures HierarchyIn(r, start, n, A, target, coarsen)
  {
    assert r[start] == ls[0];
    if A.A.globalRows > target {
      ChainInstalled(r, start, ls, target, coarsen);
    }
  }

  /** Configuring levels keeps their operators and sizes, hence the hierarchy. */
  lemma ConfiguredHierarchy(before: map<nat, Level>, after: map<nat, Level>, start: nat, n: nat,
                                                A: Level, target: int, coarsen: Operator -> Coarsening, cfg: Config)
    requires HierarchyIn(before, start, n, A, target, coarsen)
    requires after.Keys == before.Keys
    requires forall i | start <= i < n :: Configured(before[i], after[i], i, cfg)
    ensures HierarchyIn(after, start, n, A, target, coarsen)
  {
    if A.A.globalRows > target {
      assert Stops(after[n - 2], after[n - 1], target) by {
        assert Configured(before[n - 2], after[n - 2], n - 2, cfg);
        assert Configured(before[n - 1], after[n - 1], n - 1, cfg);
      }
      forall i | start < i < n ensures OperatorStep(after[i - 1], after[i], coarsen) {
        assert Configured(before[i - 1], after[i - 1], i - 1, cfg);
        assert OperatorStep(before[i - 1], before[i], coarsen);
      }
      forall i | start < i < n - 1 ensures Halves(after[i - 1], after[i], target) {
        assert Configured(before[i - 1], after[i - 1], i - 1, cfg);
        assert Halves(before[i - 1], before[i], target);
      }
      forall i | start <= i < n - 1 ensures CoversR(after[i], coarsen) {
        assert CoversR(before[i], coarsen);
      }
    }
  }

  /** `solver_t::AMGSetup`: build the level hierarchy from level A in slots
      `numLevels ..`, set up the coarse solver on the last level, size the
      scratch space by the finest new level and configure every new level. */
  method AMGSetup(s: Solver, A: Level, target: int, cfg: Config,
                  coarsen: Operator -> Coarsening, rho: Operator -> real) returns (r: Solver)
    requires target >= 0
    ensures r.startLev == s.numLevels
    ensures HierarchyIn(r.levels, r.startLev, r.numLevels, A, target, coarsen)
    ensures forall j | j in s.levels && !(r.startLev <= j < r.numLevels) :: j in r.levels && r.levels[j] == s.levels[j]
    ensures forall j | j in r.levels :: j in s.levels || r.startLev <= j < r.numLevels
    // the coarse solver works on the last level's operator
    ensures r.baseLevel == r.numLevels - 1 && r.coarseA == Some(r.levels[r.baseLevel].A)
    ensures r.numLevels == s.numLevels + |NewLevels(A, target, coarsen)|
    // each new slot holds the corresponding new level, configured
    ensures ConfiguredIn(r.levels, r.startLev, NewLevels(A, target, coarsen), cfg, rho)
    ensures forall i {:trigger ReadyLevel(r.levels[i], i, cfg)} | r.startLev <= i < r.numLevels :: ReadyLevel(r.levels[i], i, cfg)
    // scratch: three vectors of the finest new level's widened Ncols
    ensures r.scratch == 3 * r.levels[r.startLev].ncols && r.scratch >= 3 * A.ncols
    ensures A.A.globalRows <= target ==> r.scratch == 3 * A.ncols
    ensures A.A.globalRows > target ==>
      r.scratch == 3 * (if A.ncols > coarsen(A.A).rNcols then A.ncols else coarsen(A.A).rNcols)
  {
    var start := s.numLevels;
    var levels, n := SetupLevels(s.levels, start, A, target, cfg, coarsen, rho);
    r := Solver(levels, n, start, n - 1, Some(levels[n - 1].A), 3 * levels[start].ncols);
    HierarchyKept(levels, start, n, r, A, target, coarsen);
    LevelsKept(s.levels, levels, start, n, r);
    ConfiguredKept(levels, start, n, r, A, target, cfg, coarsen, rho);
    SetupScratch(A, target, coarsen, r);
  }

  /** The slots outside the new levels are those of the solver before. */
  lemma LevelsKept(before: map<nat, Level>, levels: map<nat, Level>, start: nat, n: nat, r: Solver)
    requires forall j | j in before && !(start <= j < n) :: j in levels && levels[j] == before[j]
    requires forall j | j in levels :: j in before || start <= j < n
    requires r.levels == levels && r.startLev == start && r.numLevels == n
    ensures forall j | j in before && !(r.startLev <= j < r.numLevels) :: j in r.levels && r.levels[j] == before[j]
    ensures forall j | j in r.levels :: j in before || r.startLev <= j < r.numLevels
  {
  }

  /** The new slots of a solver holding the configured levels. */
  lemma ConfiguredKept(levels: map<nat, Level>, start: nat, n: nat, r: Solver, A: Level, target: int, cfg: Config,
                       coarsen: Operator -> Coarsening, rho: Operator -> real)
    requires target >= 0 && n == start + |NewLevels(A, target, coarsen)|
    requires HierarchyIn(levels, start, n, A, target, coarsen)
    requires ConfiguredIn(levels, start, NewLevels(A, target, coarsen), cfg, rho)
    requires forall i {:trigger ReadyLevel(levels[i], i, cfg)} | start <= i < n :: ReadyLevel(levels[i], i, cfg)
    requires r.levels == levels && r.startLev == start && r.numLevels == n
    ensures r.numLevels == start + |NewLevels(A, target, coarsen)|
    ensures ConfiguredIn(r.levels, r.startLev, NewLevels(A, target, coarsen), cfg, rho)
    ensures forall i {:trigger ReadyLevel(r.levels[i], i, cfg)} | r.startLev <= i < r.numLevels :: ReadyLevel(r.levels[i], i, cfg)
  {
  }

  /** The hierarchy of a map is the hierarchy of a solver that holds it. */
  lemma HierarchyKept(levels: map<nat, Level>, start: nat, n: nat, r: Solver, A: Level, target: int,
                      coarsen: Operator -> Coarsening)
    requires HierarchyIn(levels, start, n, A, target, coarsen)
    requires r.levels == levels && r.startLev == start && r.numLevels == n
    ensures HierarchyIn(r.levels, r.startLev, r.numLevels, A, target, coarsen)
  {
  }

  /** The levels part of the setup: the coarsening loop, then the final
      loop over the new levels. */
  method SetupLevels(levels: map<nat, Level>, start: nat, A: Level, target: int, cfg: Config,
                     coarsen: Operator -> Coarsening, rho: Operator -> real) returns (r: map<nat, Level>, n: nat)
    requires target >= 0
    ensures n == start + |NewLevels(A, target, coarsen)|
    ensures HierarchyIn(r, start, n, A, target, coarsen)
    ensures ConfiguredIn(r, start, NewLevels(A, target, coarsen), cfg, rho)
    ensures forall i {:trigger ReadyLevel(r[i], i, cfg)} | start <= i < n :: ReadyLevel(r[i], i, cfg)
    ensures r[start].ncols == NewLevels(A, target, coarsen)[0].ncols
    ensures forall j | j in levels && !(start <= j < n) :: j in r && r[j] == levels[j]
    ensures forall j | j in r :: j in levels || start <= j < n
  {
    var built;
    built, n := BuildLevels(levels, start, A, target, coarsen);
    r := ConfigureLevels(built, start, n, cfg, rho);
    ConfiguredHierarchy(built, r, start, n, A, target, coarsen, cfg);
    SlotsConfigured(built, r, start, NewLevels(A, target, coarsen), cfg, rho);
    assert Configured(built[start], r[start], start, cfg);
  }

  /** The slots that hold ls, configured in place. */
  predicate ConfiguredIn(r: map<nat, Level>, at: nat, ls: seq<Level>, cfg: Config, rho: Operator -> real) {
    forall j: nat | at <= j < at + |ls| :: SlotConfigured(r, at, ls, j, cfg, rho)
  }

  /** Slot j holds ls[j - at], configured as level j. */
  predicate SlotConfigured(r: map<nat, Level>, at: nat, ls: seq<Level>, j: nat, cfg: Config, rho: Operator -> real)
    requires at <= j < at + |ls|
  {
    j in r && r[j] == ConfigureLevel(ls[j - at], j, cfg, rho)
  }

  /** Configuring the slots that hold ls configures ls in place. */
  lemma SlotsConfigured(before: map<nat, Level>, after: map<nat, Level>, at: nat, ls: seq<Level>,
                        cfg: Config, rho: Operator -> real)
    requires InSlots(before, at, ls) && after.Keys == before.Keys
    requires forall i {:trigger ConfigureLevel(before[i], i, cfg, rho)} | at <= i < at + |ls| ::
      after[i] == ConfigureLevel(before[i], i, cfg, rho)
    ensures ConfiguredIn(after, at, ls, cfg, rho)
  {
    forall j: nat | at <= j < at + |ls| ensures j in after && after[j] == ConfigureLevel(ls[j - at], j, cfg, rho) {
      assert before[j] == ls[j - at];
      assert after[j] == ConfigureLevel(before[j], j, cfg, rho);
    }
  }

  /** The finest new level's `Ncols`: A's own when A is already small,
      otherwise widened to the column count of A's restriction. */
  lemma FinestNcols(A: Level, target: int, coarsen: Operator -> Coarsening)
    requires target >= 0
    ensures A.A.globalRows <= target ==> NewLevels(A, target, coarsen)[0].ncols == A.ncols
    ensures A.A.globalRows > target ==>
      NewLevels(A, target, coarsen)[0].ncols == if A.ncols > coarsen(A.A).rNcols then A.ncols else coarsen(A.A).rNcols
  {
  }

  /** The scratch size is three vectors of the finest new level. */
  lemma SetupScratch(A: Level, target: int, coarsen: Operator -> Coarsening, r: Solver)
    requires target >= 0 && r.startLev in r.levels
    requires r.levels[r.startLev].ncols == NewLevels(A, target, coarsen)[0].ncols
    requires r.scratch == 3 * r.levels[r.startLev].ncols
    ensures r.scratch >= 3 * A.ncols
    ensures A.A.globalRows <= target ==> r.scratch == 3 * A.ncols
    ensures A.A.globalRows > target ==>
      r.scratch == 3 * (if A.ncols > coarsen(A.A).rNcols then A.ncols else coarsen(A.A).rNcols)
  {
    FinestNcols(A, target, coarsen);
  }

  /** On a level with no vectors yet, x and rhs are allocated exactly on the
      levels below the finest, res always, and the K-cycle vectors exactly
      on the K-cycle levels. */
  lemma FreshAllocation(l: Level, k: int, ctype: CycleType, numKCycles: int)
    requires l.host == NoVectors
    ensures var r := AllocateVectors(l, k, ctype, numKCycles);
      && (r.host.x.Some? <==> k != 0) && (r.host.rhs.Some? <==> k != 0) && r.host.res.Some?
      && (r.host.ck.Some? <==> ctype == KCycle && 1 <= k <= numKCycles)
      && (r.host.vk.Some? <==> r.host.ck.Some?) && (r.host.wk.Some? <==> r.host.ck.Some?)
  {
  }

  /** On a level with nothing allocated on either side, configuring it
      leaves a device vector exactly where a host vector was allocated, of
      the same length. */
  lemma {:induction false} MirrorsMatchHost(l: Level, k: int, cfg: Config, rho: Operator -> real)
    requires l.host == NoVectors && l.device.vecs == NoVectors
    ensures var r := ConfigureLevel(l, k, cfg, rho);
      && r.device.vecs == r.host
      && (r.device.R <==> k != 0 || l.device.R) && (r.device.P <==> k != 0 || l.device.P)
  {
    var l1 := SetupSmoother(l, cfg.stype, cfg.chebyshevIterations, rho(l.A));
    var l2 := AllocateVectors(l1, k, cfg.ctype, cfg.numKCycles);
    FreshAllocation(l1, k, cfg.ctype, cfg.numKCycles);
    var r := SyncToDevice(l2, k, cfg.ctype);
    assert r.device.vecs.x == r.host.x;
    assert r.device.vecs.ck == r.host.ck;
  }
}
