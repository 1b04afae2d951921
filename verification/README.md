# libParanumal core kernels in Dafny

This project models the discrete, sequential parts of libParanumal's linear-algebra backbone and proves properties about them:

- **Host gather/scatter (ogs).** The gather and scatter kernels of the ogs library reduce each group of entries with a pluggable operator and broadcast the group value back to its members. The `hostGather`/`hostScatter` drivers run these kernels in stages over local groups, halo groups and the owned-halo block.
- **Algebraic multigrid setup (parAlmond).** This covers the level hierarchy built by `AMGSetup`, the `Ncols` widening in `coarsenAgmgLevel`, and the per-level smoother parameters, scratch vectors and device mirrors.
- **Serial PCG update (adaptive solver).** `x += αp`, `r −= αAp`, returning the weighted `‖r‖²`, with the dispatch on `Nq`.
- **Stokes block vectors.** The block layout and the host copy, scale, scaled-add, zero and weighted inner-product loops.
- **Reference-element setup (`meshBasis.c`).**
  - the mode-enumeration loops of the Vandermonde builders;
  - the Jacobi recurrence matrix and the exchange sort of the Gauss nodes;
  - the Gauss-Lobatto endpoints;
  - the surface cubature point layout of the triangle.
- **OAS coarse-space setup (elliptic solver).** The size constants and the hard-wired linear prolongation/restriction pair.

## Conventions

- `dfloat` is `real`; rounding is not modelled.
- Where the source can produce an infinity or a NaN (a division by zero, the square root of a negative number), the result is `DReals.DReal`: either `Num(value)` or `NonFinite`.
- Buffers are `seq<T>`. Kernels are methods that return the updated sequence, so "nothing else changes" is an explicit postcondition.
- Integers are unbounded. `dlong`/`hlong` overflow is not modelled, and counts that are never negative in the source (`N`, `Nelements`, `Ndof`, …) are `nat`.

Foreign or numerical collaborators become parameters:

- the ogs reduction operator: an init value plus a combine function, picked from a table by type and op;
- the MPI exchange inside `gsGather`/`gsScatter`: a length-preserving function on the staging buffer;
- in parAlmond, the coarsening (`strongGraph`, `formAggregates`, `constructProlongation`, `transpose`, `galerkinProd`): a function from the fine operator to the coarse operator and the column count of `R`;
- `rhoDinvA`: a function of the operator;
- the square root and the LAPACK eigensolver used by `meshJacobiGQ`.

## Model

| member | source | states |
|---|---|---|
| OgsLayout.SplitFlat | libs/ogs/src/hostGather.cpp:86-90 | every slot (m, gid, k) has a flat loop index inside `Ngather*Nentries*Nvectors`, and the kernel's div/mod decomposition of that index returns exactly (m, gid, k) |
| OgsLayout.FlatSplit | libs/ogs/src/hostGather.cpp:86-90 | every flat index below `Ngather*Nentries*Nvectors` decomposes into an in-range slot and is recovered from it, so each slot is visited exactly once |
| OgsLayout.SeparatedInjective | libs/ogs/src/hostGather.cpp:98 | when the vector stride leaves room for a whole vector, distinct slots write distinct output cells `k+gid*Nentries+m*gstride` |
| OgsLayout.SeparatedDistinct | libs/ogs/src/hostGather.cpp:98 | the contrapositive: different slots never share an output cell |
| OgsLayout.CopyBlock | libs/ogs/src/hostGather.cpp:61-63 | `memcpy` of `len` elements: the destination window holds the source window and every other cell is unchanged |
| OgsLayout.CopyBlocks | libs/ogs/src/hostGather.cpp:59-63 | the per-vector copy loop: when blocks do not overlap, block i of the destination holds block i of the source, and cells outside all blocks are unchanged |
| OgsLayout.CopyKeepsBlock | libs/ogs/src/hostGather.cpp:60-63 | copying block i does not disturb an earlier block i' when blocks are at least `len` apart |
| OgsLayout.BlockBefore | libs/ogs/src/hostScatter.cpp:55-58 | with non-overlapping blocks every cell of block i' lies before the start of a later block i |
| HostGather.FoldGroup | libs/ogs/src/hostGather.cpp:91-97 | the inner loop yields the left fold of the operator from its init value over the group's members, and exactly the init value for an empty group |
| HostGather.GatherKernel | libs/ogs/src/hostGather.cpp:75-100 | each slot's output cell holds the fold of its group (with a separating stride, for every slot), empty groups give init, and cells no slot addresses are unchanged |
| HostGather.GatherDispatch | libs/ogs/src/hostGather.cpp:107-144 | a listed (type, op) pair runs the kernel with the table's reducer; the `ogs_type_n`/`ogs_op_n` sentinels leave the output untouched |
| HostGather.OwnedNotLocal | libs/ogs/src/hostGather.cpp:59-69 | an owned-halo cell `NlocalGather*Nentries + gstride*i + j` is never a local group's output cell when each vector has room for both |
| HostGather.OwnedBlocksApart | libs/ogs/src/hostGather.cpp:59-63 | under the same room condition the per-vector owned-halo blocks do not overlap |
| HostGather.Gather | libs/ogs/src/hostGather.cpp:34-70 | the stages in order: halo groups to the staging buffer, the exchange, owned-halo results right after the local slots of each vector, then local groups from slot 0; each stage is skipped when its count is 0 and only addressed cells change |
| HostScatter.Broadcast | libs/ogs/src/hostScatter.cpp:92-95 | every member of the group receives the value, and no other cell changes |
| HostScatter.ScatterKernel | libs/ogs/src/hostScatter.cpp:73-97 | each member cell owned by a single slot takes its group's gathered value, cells of no member are unchanged, and `gatherq` is only read |
| HostScatter.MembersOwned | libs/ogs/src/hostScatter.cpp:89-95 | when each id belongs to at most one group and the stride separates ids, every member cell is written by exactly its own slot |
| HostScatter.MembersAgree | libs/ogs/src/hostScatter.cpp:89-95 | under the same conditions all members of a group end up holding the same value |
| HostScatter.ScatterDispatch | libs/ogs/src/hostScatter.cpp:104-134 | dispatch depends on the type only: a listed type scatters and the type sentinel is a no-op, whatever the op |
| HostScatter.Scatter | libs/ogs/src/hostScatter.cpp:34-68 | the stages in order: local scatter, owned-halo copy into the staging buffer, the exchange, then halo scatter; each stage is skipped when its count is 0, and cells of no member are unchanged |
| HostScatter.GatherThenScatter | libs/ogs/src/hostScatter.cpp:84-96 | gather followed by scatter with the same groups leaves every member holding the fold of its group's original values |
| HostScatter.OwnedOffsetsAgree | libs/ogs/src/hostScatter.cpp:57 | the scatter's owned-halo read offset equals the gather's write offset exactly when `NlocalGather == 0` or `Nentries == 1` |
| HostScatter.HaloStrideAgree | libs/ogs/src/hostGather.cpp:50-63 | the halo kernel's vector stride `NhaloGather` addresses the same cell as the owned-halo copy's `NhaloGather*Nentries` block exactly when `m == 0`, `NhaloGather == 0` or `Nentries == 1` |
| AgmgSetup.Widen | libs/parAlmond/src/agmgSetup/agmgSetup.cpp:118-119 | the fine level's `Ncols` becomes the larger of its old value and `R.Ncols`, so it never decreases, and nothing else in the level changes |
| AgmgSetup.Hierarchy | libs/parAlmond/src/agmgSetup/agmgSetup.cpp:60-119 | the coarsening chain: every step applies the coarsening to the previous operator, every continuing step at least halves the size above the target, and the chain ends at the first step that reaches the target or stalls; exactly, the first level is A widened by its own `R.Ncols`, each middle level is the previous coarse operator widened by its own `R.Ncols`, and the last level is the last coarse operator unwidened |
| AgmgSetup.HalvesShrinks | libs/parAlmond/src/agmgSetup/agmgSetup.cpp:74-79 | whenever the loop continues the global size strictly decreases, which is the termination argument for a nonnegative target |
| AgmgSetup.Install | libs/parAlmond/src/agmgSetup/agmgSetup.cpp:40-72 | new levels go into consecutive slots starting at `AMGstartLev`, and all other slots are kept |
| AgmgSetup.SetupSmoother | libs/parAlmond/src/agmgSetup/agmgSetup.cpp:124-140 | the smoother type and Chebyshev count are always recorded; damped Jacobi sets `lambda*rho == 4/3` (non-finite when `rho` is 0); Chebyshev sets `lambda1 = rho` and `10*lambda0 = rho`; other lambdas are untouched |
| AgmgSetup.AllocateVectors | libs/parAlmond/src/agmgSetup/agmgSetup.cpp:142-157 | `res` (Ncols) always; `x` (Ncols) and `rhs` (Nrows) only for k ≠ 0; `ck` (Ncols), `vk` and `wk` (Nrows) only for K-cycle levels with 1 ≤ k ≤ NUMKCYCLES |
| AgmgSetup.FreshAllocation | libs/parAlmond/src/agmgSetup/agmgSetup.cpp:142-157 | on a level without vectors each vector exists if and only if its condition holds |
| AgmgSetup.Mirror | libs/parAlmond/src/agmgSetup/agmgSetup.cpp:172-174 | a device vector of the host length is made exactly when the host vector exists |
| AgmgSetup.SyncToDevice | libs/parAlmond/src/agmgSetup/agmgSetup.cpp:159-183 | the operator is always mirrored; R and P only for k ≠ 0; each allocated host vector gets a device copy of its length; K-cycle vectors only under K-cycle |
| AgmgSetup.MirrorsMatchHost | libs/parAlmond/src/agmgSetup/agmgSetup.cpp:142-183 | after configuring a fresh level its device vectors are exactly its host vectors, and R/P are on the device if and only if k ≠ 0 |
| AgmgSetup.ConfigureLevel | libs/parAlmond/src/agmgSetup/agmgSetup.cpp:86-88 | one iteration of the configuration loop leaves the operator and sizes alone and makes the level ready: smoother recorded, `res` allocated, `x`, R and P present on levels k ≠ 0 |
| AgmgSetup.ConfigureLevels | libs/parAlmond/src/agmgSetup/agmgSetup.cpp:85-89 | the loop configures exactly the slots `AMGstartLev..numLevels-1`, each with its own level index, and keeps every other slot |
| AgmgSetup.NewLevels | libs/parAlmond/src/agmgSetup/agmgSetup.cpp:40-53 | the new levels are exactly `[A]` when A is already at or below the target; otherwise there are at least two and the first is A widened to `max(Ncols, R.Ncols)` |
| AgmgSetup.BuildLevels | libs/parAlmond/src/agmgSetup/agmgSetup.cpp:38-80 | slots `AMGstartLev..numLevels-1` hold exactly the new levels, in order, and therefore the hierarchy: one level when the finest size is at or below the target, otherwise a chain that stops at the first small or stalled level |
| AgmgSetup.ConfiguredHierarchy | libs/parAlmond/src/agmgSetup/agmgSetup.cpp:85-89 | configuring the levels does not disturb the hierarchy's operators, sizes or stopping facts |
| AgmgSetup.AMGSetup | libs/parAlmond/src/agmgSetup/agmgSetup.cpp:32-91 | `AMGstartLev` is the old `numLevels` and `numLevels` grows by the number of new levels; slot `AMGstartLev+i` holds the i-th new level configured as level `AMGstartLev+i` (smoother, vectors and device copies exactly as one iteration of the final loop makes them); the slots hold the hierarchy and nothing else changes; `baseLevel = numLevels-1` and the coarse solver gets that level's operator; the scratch is `3*Ncols` of the first new level, which is `3*A.Ncols` when A is small and `3*max(A.Ncols, R.Ncols)` otherwise |
| AgmgSetup.SetupLevels | libs/parAlmond/src/agmgSetup/agmgSetup.cpp:38-89 | after the coarsening loop and the final loop, slot `AMGstartLev+i` holds the i-th new level configured as that level, every new level is ready, the slots hold the hierarchy, and every other slot is kept |
| AgmgSetup.SetupScratch | libs/parAlmond/src/agmgSetup/agmgSetup.cpp:82-83 | the scratch of `3*Ncols` of the first new level is `3*A.Ncols` when A is small and `3*max(A.Ncols, R.Ncols)` otherwise, never below `3*A.Ncols` |
| AdaptiveUpdatePCG.WeightedNormPrefix | solvers/adaptive/src/adaptiveUpdatePCG.c:57 | the accumulated `Σ r[n]²·invDegree[n]` over a prefix depends only on that prefix |
| AdaptiveUpdatePCG.WeightedNormNonnegative | solvers/adaptive/src/adaptiveUpdatePCG.c:57 | with nonnegative inverse degrees the accumulated sum is nonnegative |
| AdaptiveUpdatePCG.UpdateNode | solvers/adaptive/src/adaptiveUpdatePCG.c:53-58 | one node: `x[n] += alpha*p[n]`, `r[n] -= alpha*Ap[n]`, and the new `r[n]²·invDegree[n]` is added to the sum |
| AdaptiveUpdatePCG.UpdateElement | solvers/adaptive/src/adaptiveUpdatePCG.c:52-59 | the inner loop updates the `Nq³` nodes of one element and nothing beyond them |
| AdaptiveUpdatePCG.UpdatePCGKernel | solvers/adaptive/src/adaptiveUpdatePCG.c:29-65 | for every `n < Nelements*Nq³`, x and r are updated; entries at or beyond that bound are unchanged; the return value is `Σ r_new[n]²·invDegree[n]` over the range |
| AdaptiveUpdatePCG.UpdatePCG | solvers/adaptive/src/adaptiveUpdatePCG.c:67-95 | `Nq` in 2..12 runs the kernel; any other `Nq` returns 0 and modifies nothing |
| AdaptiveUpdatePCG.UpdateNonnegative | solvers/adaptive/src/adaptiveUpdatePCG.c:47-64 | with all `invDegree[n] ≥ 0` the returned value is nonnegative |
| StokesVec.HostLayout | solvers/stokes/src/stokesVec.c:52-60 | x at offset 0 and y at `NtotalV`; in 2D z is NULL and p is at `2*NtotalV`; in 3D z is at `2*NtotalV` and p at `3*NtotalV`; for other dimensions z and p stay unassigned |
| StokesVec.DeviceMirrorsHost | solvers/stokes/src/stokesVec.c:64-71 | every device offset is the host offset scaled by `sizeof(dfloat)`, with no device z in 2D |
| StokesVec.LayoutPartitions | solvers/stokes/src/stokesVec.c:50-60 | in 2D and 3D the component blocks are pairwise disjoint and together cover all `dim*NtotalV + NtotalP` entries |
| StokesVec.Copy | solvers/stokes/src/stokesVec.c:155-161 | `v[i] = u[i]` for all `i < Ndof`, and later entries are kept |
| StokesVec.Scale | solvers/stokes/src/stokesVec.c:193-199 | `v[i] = c*v[i]` for all `i < Ndof` |
| StokesVec.ScaledAdd | solvers/stokes/src/stokesVec.c:201-207 | `v[i] = a*u[i] + b*v[i]` for all `i < Ndof`; u is only read |
| StokesVec.Zero | solvers/stokes/src/stokesVec.c:209-213 | all `Ndof` entries become 0 |
| StokesVec.PressureOffset | solvers/stokes/src/stokesVec.c:56-59 | the pressure block starts at `dim*NtotalV`, the layout's p offset |
| StokesVec.InnerProduct | solvers/stokes/src/stokesVec.c:175-191 | the loops compute `Σ_{i<NtotalV}(ux·vx + uy·vy [+ uz·vz in 3D])·invDegV[i] + Σ_{i<NtotalP} up·vp·invDegP[i]` |
| StokesVec.InnerSymmetric | solvers/stokes/src/stokesVec.c:175-191 | the inner product is symmetric in u and v |
| StokesVec.InnerSelfNonnegative | solvers/stokes/src/stokesVec.c:175-191 | with nonnegative inverse degrees `⟨u,u⟩ ≥ 0` |
| StokesVec.InnerCombined | solvers/stokes/src/stokesVec.c:175-191 | the inner product is linear in its second argument, so after ScaledAdd `⟨t, v'⟩ = a⟨t,u⟩ + b⟨t,v⟩` |
| StokesVec.InnerScaled | solvers/stokes/src/stokesVec.c:175-191 | after Scale, `⟨t, v'⟩ = c⟨t,v⟩` |
| StokesVec.InnerZero | solvers/stokes/src/stokesVec.c:175-191 | after Zero, `⟨t, v⟩ = 0` |
| StokesVec.InnerCopied | solvers/stokes/src/stokesVec.c:175-191 | after Copy, `⟨t, v⟩ = ⟨t, u⟩` |
| StokesVec.VelocityCombined | solvers/stokes/src/stokesVec.c:180-184 | the velocity sum alone is linear under a scaled add |
| StokesVec.PressureCombined | solvers/stokes/src/stokesVec.c:187-188 | the pressure sum alone is linear under a scaled add |
| MeshModes.LineModes | src/meshBasis.c:336-354 | the 1D loop visits exactly the N+1 modes i ≤ N in increasing order, one per Vandermonde column, and `Np = N+1` |
| MeshModes.TriangleModes | src/meshBasis.c:358-389 | the triangle loop visits exactly the pairs (i, j) with `i + j ≤ N` in lexicographic order, so `sk` ends at `Np = (N+1)(N+2)/2` |
| MeshModes.QuadrilateralModes | src/meshBasis.c:392-413 | the quad loop visits exactly the `(N+1)²` pairs i, j ≤ N in order |
| MeshModes.TetrahedronModes | src/meshBasis.c:417-456 | the tet loop visits exactly the triples with `i + j + k ≤ N` in order, so `sk` ends at `Np = (N+1)(N+2)(N+3)/6` |
| MeshModes.HexahedronModes | src/meshBasis.c:459-483 | the hex loop visits exactly the `(N+1)³` triples i, j, k ≤ N in order |
| MeshModes.TriClosedForm | src/meshBasis.c:360 | the number of pairs with total degree ≤ m is `(m+1)(m+2)/2` |
| MeshModes.TetClosedForm | src/meshBasis.c:420 | the number of triples with total degree ≤ m is `(m+1)(m+2)(m+3)/6` |
| MeshModes.VandermondeIndexInBounds | src/meshBasis.c:336-483 | every write index `id = n*Np + sk` with `n < Npoints`, `sk < Np` lies in `[0, Npoints*Np)` |
| MeshModes.VandermondeIndexInjective | src/meshBasis.c:336-483 | distinct (point, mode) pairs write distinct entries |
| MeshNodes.ExchangeSort | src/meshBasis.c:118-129 | after the sloppy sort the abscissae are ascending and the (x, w) pairs are a permutation of the input pairs |
| MeshNodes.BuildJacobiMatrix | src/meshBasis.c:71-97 | the accumulation loop and the first-entry override produce exactly the reference matrix `JacobiMatrix` |
| MeshNodes.JacobiMatrixSymmetric | src/meshBasis.c:79-89 | `J = J + J'`: the matrix is symmetric, and entries more than one off the diagonal are 0 |
| MeshNodes.RadicandNonnegative | src/meshBasis.c:55-88 | for `alpha, beta > -1` the quantity under each square root is a finite nonnegative number, except when `alpha + beta == -1` at n = 0 |
| MeshNodes.JacobiMatrixFinite | src/meshBasis.c:55-97 | for `alpha, beta > -1` with `alpha + beta ≠ -1` and a positive machine epsilon every matrix entry is finite; the `J[0] = 0` override is what removes the 0/0 at `alpha + beta == 0` |
| MeshNodes.JacobiMatrixNaN | src/meshBasis.c:55-88 | at `alpha + beta == -1` (for instance alpha = beta = -1/2, which the header comment excludes) the first off-diagonal pair is 0/0 |
| MeshNodes.JacobiGQ | src/meshBasis.c:55-136 | returns N+1; for N = 0 the single node `(alpha-beta)/(alpha+beta+2)` with weight 2; otherwise the eigen-pairs of the recurrence matrix, sorted by abscissa |
| MeshNodes.JacobiGL | src/meshBasis.c:138-172 | returns N+1 nodes with `x[N] = 1` and `x[0] = -1` for N ≥ 1 (for N = 0 only `x[0] = 1` survives); the interior nodes are the sorted Gauss nodes of type (alpha+1, beta+1) and order N-2 |
| MeshNodes.PlacePoint | src/meshBasis.c:1051-1063 | one iteration writes the three faces' points for index n and keeps the earlier ones |
| MeshNodes.SurfaceLayout | src/meshBasis.c:1047-1112 | face 0 gets (z_n, -1), face 1 gets (-z_n, z_n), face 2 gets (-1, -z_n), the weight w_n is repeated on each face, and the count is `3*intNfp` |
| MeshNodes.CubatureSurfacePoints | src/meshBasis.c:1036-1112 | the per-face abscissae are the ascending Gauss-Legendre nodes of order intNfp-1, laid out as above, with `3*intNfp` returned |
| MeshNodes.SurfacePointsOnEdges | src/meshBasis.c:1051-1063 | point n of face f is the affine image of z_n on edge f of the reference triangle, from vertex f to vertex f+1, so ascending abscissae traverse the boundary counter-clockwise |
| MeshNodes.EdgePointOnSegment | src/meshBasis.c:1051-1063 | abscissae in [-1, 1] give points on the closed edges `s = -1`, `r + s = 0`, `r = -1` |
| EllipticOasSetup.BlockCount | solvers/elliptic/src/ellipticOasSetup.c:57-58 | `NblockV = maxNthreads/Np` is the largest block count with `NblockV*Np ≤ maxNthreads` |
| EllipticOasSetup.OasSizes | solvers/elliptic/src/ellipticOasSetup.c:47-58 | `NqFine = N+1`, `NqCoarse = 2`, `NpFine = (N+1)³`, `NpCoarse = 8`, and both block counts fill the thread budget without exceeding it |
| EllipticOasSetup.BuildTransfer | solvers/elliptic/src/ellipticOasSetup.c:127-136 | all `NqFine*NqCoarse` entries of P (row-major `P[n*2+c]`) and R (row-major `R[c*NqFine+n]`) hold the linear hat values `(1∓z)/2` at the fine nodes |
| EllipticOasSetup.RestrictionIsTranspose | solvers/elliptic/src/ellipticOasSetup.c:131-136 | `R[c*NqFine+n] == P[n*2+c]`: R is the transpose of P |
| EllipticOasSetup.ProlongationReproducesLinears | solvers/elliptic/src/ellipticOasSetup.c:132-133 | every row of P sums to 1, and `P[n,1] - P[n,0]` reproduces the node coordinate |
| EllipticOasSetup.ProlongationAtEndpoints | solvers/elliptic/src/ellipticOasSetup.c:131-136 | on Gauss-Lobatto nodes the first fine node is purely coarse mode 0 and the last purely coarse mode 1 |
| EllipticOasSetup.OasSetup | solvers/elliptic/src/ellipticOasSetup.c:47-169 | the coarse problem is the fine object itself exactly when `N ≤ 1`; the stored R and P are the transfer pair on the fine nodes |

## Left out

- MPI: the exchanges inside `gsGather`/`gsScatter` are a caller-supplied, length-preserving function on the staging buffer. `MPI_Comm_rank`/`MPI_Comm_size` and the diagnostic `printf`s are not modelled.
- `reallocHostBuffer` is left out; the staging buffer is a parameter, and its size is a precondition.
- The `OGS_DO_*`/`init_*` macro bodies and `ogs_type_size` are defined in a header that is not part of this model. The operator is a table of (init, combine) pairs indexed by type and op, and only the difference between a listed type or op and the `ogs_type_n`/`ogs_op_n` sentinel is modelled.
- The `memcpy` in hostGather/hostScatter is byte-based; the model counts in elements, which is the same once `Nbytes` is factored out.
- HostGather.Gather: the owned-halo offsets of hostGather.cpp (61, 62) and hostScatter.cpp (57) are modelled as written. Their agreement is proved only where it holds (`Nentries == 1`, see `HostScatter.OwnedOffsetsAgree` and `HostScatter.HaloStrideAgree`).
- HostGather.GatherKernel: for overlapping writes (a stride that does not separate the slots, as with `Nentries > 1` in the halo stage) the value of a cell is stated only for its last writer.
- parAlmond collaborators (`strongGraph`, `formAggregates`, `constructProlongation`, `transpose`, `galerkinProd`, `rhoDinvA`, `coarseSolver`, `parHYB`) have bodies that are not part of this model. They are functions passed in; device copies are recorded only as presence flags and lengths.
- AgmgSetup.AMGSetup: requires a nonnegative coarse target. With a negative target and a coarsening that reaches zero rows, the source loop would never terminate.
- AgmgSetup.AMGSetup: the unused `numLevels` argument of `allocateAgmgVectors`/`syncAgmgToDevice` is dropped, and `allocateScratchSpace` is reduced to the size it is asked for.
- AgmgSetup.Hierarchy: the last level is not claimed to be smaller than the one before it. The stopping test `globalSize < 2*globalCoarseSize` also stops when the coarsening grows the problem, so only the continuing steps are known to halve.
- AdaptiveUpdatePCG.UpdatePCG: only the serial host path is modelled; the OCCA kernel path and the `MPI_Allreduce` of the solver are left out.
- StokesVec: the device (OCCA) variants of the vector operations and `stokesVecGatherScatter` are left out. The device layout for a dimension other than 2 or 3 leaves `o_z`/`o_p` unassigned, as on the host.
- StokesVec.InnerProduct: requires dimension 2 or 3. For another dimension the source skips the velocity loop but the layout pointers are unassigned, so the pressure loop would read through an uninitialised pointer.
- MeshModes: the orthonormal basis evaluations (`meshOrthonormalBasis*`) and the collapsed-coordinate maps are numerical and are left out. The model enumerates which modes are visited, in which order, and where each one is written.
- MeshNodes.JacobiGQ: the eigenvalue solve, the square root, `mygamma` and `pow` are parameters; the weights come with the eigensolver's pairs.
- MeshNodes.JacobiGQ: the machine-epsilon loop `while (1+eps > 1)` would not terminate over exact reals, so `eps` is a parameter.
- MeshNodes.JacobiGL: the mass-lumped weights (Vandermonde and mass matrix, lines 158-170) are left out. Only the abscissae are modelled.
- MeshNodes.CubatureSurfacePoints: requires `intNfp ≥ 1`. With `intNfp = 0`, `meshJacobiGQ(0,0,-1)` would write `J[0]` into a zero-length allocation.
- The interpolation and lift matrices of `meshCubatureSurfaceMatricesTri2D` (lines 1065-1110) are dense numerical linear algebra and are left out.
- EllipticOasSetup.OasSetup: the one-ring patch problem (`ellipticBuildOneRing`) and the degree-1 mesh and elliptic setup (`meshParallelConnect` … `ellipticSetup`) are not modelled; the separately built coarse object is the marker `DegreeOneCopy`. The device copies `o_R`/`o_P` are the stored sequences.
- EllipticOasSetup.OasSizes: `maxNthreads` is a parameter (a nonnegative constant in the source).
