# Amoebot lattice geometry, separation tests and bridging arena in Dafny

This project models three deterministic parts of an amoebot-model simulator.
In that model, particles occupy nodes of the triangular lattice and move by expanding and contracting.

- `lattice.dfy`, module `Lattice`: the `Node` coordinate type. It covers equality and the lexicographic
  order, the six-direction offset table, the greedy step toward another node, and the hop-count loop.
  The hop count is proved equal to the hex distance `(|dx| + |dy| + |dx + dy|) / 2`, which also serves as
  the loop's termination measure.
- `separation.dfy`, module `Separation`: what a particle of the separation algorithm does with its
  neighbourhood. This covers the neighbour counts (all teams, and one team), the search for an expanded
  neighbour, the two local-connectivity tests (Property 1 and Property 2), and the expand/contract
  skeleton of `activate`. The particle's neighbourhood is an input `View`: a map from port label to
  `Empty` or `Nbr(expanded, pointsAtMyHead, team)`, plus the three label orders the framework supplies.
- `arena.dfy`, module `Arena`: the constructor of the shortcut-bridging system. It walks a regular
  hexagon of `sideLen` object nodes per side, then places particles on free nodes strictly inside the
  hexagon. The random draws are inputs.
- `seqs.dfy`, module `Seqs`: the one sequence predicate both of the above share, `Distinct`.

Loops in the source are methods with loop invariants, proved against specification functions
(`Count`, `CountTeam`, `Marked`, `FirstRun`, `Boundary`, `Placements`). Lemmas then state what those
functions mean. The particle whose fields `activate` updates is a class, and so is the system whose
object and particle lists the constructor fills.

## Model

| member | source | states |
|---|---|---|
| `Lattice.Eq` | core/node.h:63-66 | `==` holds exactly when the two nodes are the same value (both coordinates equal) |
| `Lattice.Ne` | core/node.h:68-71 | `!=` is the negation of `==` and holds exactly for different nodes |
| `Lattice.Less` | core/node.h:126-129 | `<` compares x first: a smaller x is always less, and a node less than another has no larger x and is a different node; on equal x, the node with the smaller y is less |
| `Lattice.LessIsStrictTotalOrder` | core/node.h:126-129 | `<` is irreflexive and transitive; for any two nodes exactly one of `a < b`, `a == b`, `b < a` holds |
| `Lattice.NodeInDir` | core/node.h:73-81 | for a direction in 0..5 the result is at hop distance 1, displaced by exactly that direction's table offset |
| `Lattice.OppositeCancels` | core/node.h:77-78 | stepping in d and then in (d + 3) mod 6 returns to the start |
| `Lattice.AdjacentIsNodeInDir` | core/node.h:73-81 | every node at hop distance 1 is `nodeInDir(d)` for some direction d |
| `Lattice.NodeTowardsNode` | core/node.h:83-114 | the result is always a neighbour of the start, and it is the SW neighbour when both nodes are equal |
| `Lattice.TowardsShortensDistance` | core/node.h:83-114 | for distinct nodes one step reduces the hex distance to the target by exactly one |
| `Lattice.TowardsNeighbourLandsOnIt` | core/node.h:83-114 | stepping toward a neighbour lands on that neighbour |
| `Lattice.DistanceBetween` | core/node.h:116-124 | the hop-count loop terminates and returns the hex distance |
| `Lattice.DistanceZeroIffEqual` | core/node.h:116-124 | the distance is zero exactly on equal nodes |
| `Lattice.DistanceSymmetric` | core/node.h:116-124 | the distance from a to b equals the distance from b to a |
| `Separation.HasExpHeadAtLabel` | alg/separation.cpp:136-140 | an expanded head at a label implies an (expanded) neighbour at that label |
| `Separation.HasExpNbr` | alg/separation.cpp:124-133 | true exactly when some unique label holds an expanded neighbour |
| `Separation.Count` | alg/separation.cpp:142-152 | the number of counted labels is at most the number of labels |
| `Separation.NbrCount` | alg/separation.cpp:142-152 | the counter loop returns `Count` of the labels |
| `Separation.CountIsPositions` | alg/separation.cpp:142-152 | the count is the number of positions holding a neighbour that is not an expanded head |
| `Separation.CountIsSetSize` | alg/separation.cpp:142-152 | over distinct labels, the count is the size of the set of counted labels |
| `Separation.CountTeam` | alg/separation.cpp:154-164 | the team count never exceeds the full count |
| `Separation.NbrCountTeam` | alg/separation.cpp:154-164 | the team counter loop returns `CountTeam` of the labels |
| `Separation.TeamCountsSum` | alg/separation.cpp:154-164 | the Red count plus the Blue count is the full count |
| `Separation.CollectSeeds` | alg/separation.cpp:57-62 | the loop over the fifth head label and the fifth tail label returns `Seeds` |
| `Separation.IndexOf` | alg/separation.cpp:182 | `std::find`: the first position holding s, or the length when s is absent |
| `Separation.CcwAt` | alg/separation.cpp:187 | the label read o steps counter-clockwise is a label of the list: position i + o, or i + o - n once the sweep passes the end (the index as written, since `i + offset` never wraps) |
| `Separation.CwAt` | alg/separation.cpp:197 | the intended clockwise index: position i - o, or i - o + n once the sweep passes position 0; it is what the source computes whenever n divides 2^32 |
| `Separation.CwAtAsWritten` | alg/separation.cpp:197 | the clockwise index as written, with `i - offset` reduced modulo 2^32 and then widened to a 64-bit `size_t`; the label read is a label of the list |
| `Separation.CwAtAsWrittenWraps` | alg/separation.cpp:197 | the index as written agrees with `CwAt` while offset <= i, and reads position (2^32 + i - offset) mod n once offset > i |
| `Separation.CwAtAsWrittenWhenDivides` | alg/separation.cpp:197 | when the label count n divides 2^32, the index as written reads the same label as the intended cyclic index for every seed position and offset of the sweep |
| `Separation.SweepCcw` | alg/separation.cpp:184-193 | every label the counter-clockwise sweep marks is a counted label of the list |
| `Separation.SweepCw` | alg/separation.cpp:195-203 | every label the intended clockwise sweep marks is a counted label of the list |
| `Separation.SweepCwAsWritten` | alg/separation.cpp:195-203 | every label the clockwise sweep as written marks is a counted label of the list |
| `Separation.SweepCcwIsRun` | alg/separation.cpp:184-193 | a label is swept counter-clockwise exactly when it lies fewer than `labels.size()` places after the seed, wrapping around, and every label from the first step up to it is counted |
| `Separation.SweepCwIsRun` | alg/separation.cpp:195-203 | a label is swept by the intended clockwise sweep exactly when it lies fewer than `labels.size()` places before the seed, wrapping around, and every label from the first step up to it is counted |
| `Separation.MarkCcw` | alg/separation.cpp:186-193 | the break-terminated loop adds exactly the labels of `SweepCcw` |
| `Separation.MarkCw` | alg/separation.cpp:196-203 | the break-terminated loop, with the intended index, adds exactly the labels of `SweepCw` |
| `Separation.Marked` | alg/separation.cpp:176-204 | every label marked with the intended sweeps is a seed or a counted label |
| `Separation.MarkedAsWritten` | alg/separation.cpp:176-204 | every label marked with the clockwise index as written is a seed or a counted label |
| `Separation.SweepCwAsWrittenWhenDivides` | alg/separation.cpp:195-203 | when n divides 2^32, the clockwise sweep as written marks exactly the labels of the intended sweep |
| `Separation.MarkedAsWrittenWhenDivides` | alg/separation.cpp:176-204 | when n divides 2^32, the set marked as written equals the intended marked set |
| `Separation.Prop1` | alg/separation.cpp:206-209 | the intended verdict: S is nonempty and the marked set has as many labels as `nbrCount(uniqueLabels())` |
| `Separation.Prop1AsWritten` | alg/separation.cpp:206-209 | the verdict as written: the same comparison on the set marked with the clockwise index as written |
| `Separation.ExpandedVerdictAsWritten` | alg/separation.cpp:166-211 | for the eight unique labels of an expanded particle, the verdict as written equals the intended verdict `Prop1`, so the wrap-around never changes what `checkProp1` returns in this system |
| `Separation.WrapExampleShows` | alg/separation.cpp:196-197 | the ten-label shape is inhabited: on `WrapExample` with S = [0] the intended verdict holds and the verdict as written does not |
| `Separation.ClockwiseWrapCounterexample` | alg/separation.cpp:196-197 | for a hypothetical view with ten unique labels (a count that does not divide 2^32), seed 0 and counted neighbours at 0, 8 and 9 only, the intended verdict holds and the verdict as written does not |
| `Separation.CheckProp1` | alg/separation.cpp:166-211 | false for empty S; otherwise true exactly when the set marked with the intended sweeps has as many labels as `nbrCount(uniqueLabels())` |
| `Separation.MarkedAreCounted` | alg/separation.cpp:176-209 | when the seeds are counted unique labels, every marked label is a counted unique label |
| `Separation.Prop1Meaning` | alg/separation.cpp:206-209 | with distinct labels and counted seeds, the intended Property 1 holds exactly when S is nonempty and every counted label is marked |
| `Separation.LeadingRun` | alg/separation.cpp:229-236 | the leading run is no longer than the list |
| `Separation.FirstRun` | alg/separation.cpp:229-236 | the first run is no longer than the list |
| `Separation.CountFirstRun` | alg/separation.cpp:227-248 | the `seenNbr` loop returns the length of the first run of counted labels |
| `Separation.FirstRunIsWhole` | alg/separation.cpp:250-252 | the first run contains every counted label exactly when no uncounted label lies between two counted ones |
| `Separation.Prop2` | alg/separation.cpp:252 | the verdict: S is empty, the head and the tail each see a counted neighbour, and each first run is as long as its count |
| `Separation.CheckProp2` | alg/separation.cpp:213-253 | false for nonempty S; otherwise true exactly when head and tail have counted neighbours and each first run equals its count |
| `Separation.Prop2Meaning` | alg/separation.cpp:220-252 | Property 2 holds exactly when S is empty and the head's and the tail's counted labels are each nonempty and gap-free |
| `Separation.CountedOnly` | alg/separation.cpp:57-62 | the filtered list holds exactly the counted labels of the input, one entry per counted position (its length is `Count`) |
| `Separation.CountedOnlyAppend` | alg/separation.cpp:57-62 | filtering keeps the input order: filtering a concatenation concatenates the filtered parts |
| `Separation.Seeds` | alg/separation.cpp:57-62 | S has at most two labels: the fifth head and fifth tail labels, when counted |
| `Separation.SeparationParticle.constructor` | alg/separation.cpp:3-14 | the particle starts contracted exactly when its tail direction is -1, with zero counts and a cleared flag |
| `Separation.SeparationParticle.Activate` | alg/separation.cpp:16-73 | the contracted particle expands only when it can and sees no expanded neighbour, after recording its counts; the expanded particle always contracts: it calls `contractTail()`, keeping the head at the new position, only when the flag is set, fewer than 5 neighbours were counted before, the acceptance test passes and Property 1 (intended) or Property 2 holds; otherwise it calls `contractHead()`, back to the original node |
| `Arena.StepAlongSide` | alg/shortcutbridging.cpp:36-41 | one step in a side's direction advances one place along the side; a side of `sideLen` steps ends where the next begins |
| `Arena.Sides` | alg/shortcutbridging.cpp:36-41 | the object nodes of the first n outer iterations, side after side in walk order (its length is given by `SidesLength`) |
| `Arena.SidesLength` | alg/shortcutbridging.cpp:36-41 | the first n outer iterations insert n * sideLen object nodes |
| `Arena.Boundary` | alg/shortcutbridging.cpp:36-41 | the walk produces exactly `6 * sideLen` object nodes |
| `Arena.BoundaryIsClosedWalk` | alg/shortcutbridging.cpp:36-41 | consecutive object nodes are adjacent and the last step leads back to the origin |
| `Arena.BoundaryDistinct` | alg/shortcutbridging.cpp:36-41 | the object nodes are pairwise distinct |
| `Arena.BoundaryNotInterior` | alg/shortcutbridging.cpp:43-46 | no object node passes the strict-interior test |
| `Arena.Placements` | alg/shortcutbridging.cpp:48-60 | the placement loop over the draws keeps every earlier placement and adds at most one particle per draw |
| `Arena.PlacementsSound` | alg/shortcutbridging.cpp:48-60 | placed particles stand on interior nodes, never two on one node, never more than `numParticles`, and earlier placements are kept |
| `Arena.InteriorCount` | alg/shortcutbridging.cpp:43-46 | the nodes satisfying the three interior bounds number 3s² - 3s + 1 for s >= 1 (a centred hexagonal number), and none for s = 0 |
| `Arena.PlacementCapacity` | alg/shortcutbridging.cpp:48 | no more particles can be placed than there are interior nodes, that is at most 3s² - 3s + 1 |
| `Arena.PlacementsAvoidObjects` | alg/shortcutbridging.cpp:54-58 | no particle is placed on an object node |
| `Arena.ShortcutBridgingSystem.InsertBoundary` | alg/shortcutbridging.cpp:35-41 | inserts one non-traversable, non-anchor object per inner iteration, at the boundary nodes in walk order |
| `Arena.ShortcutBridgingSystem.PlaceParticles` | alg/shortcutbridging.cpp:47-60 | the loop places exactly the particles `Placements` describes, keeping the occupied set equal to the placed heads |
| `Arena.ShortcutBridgingSystem.constructor` | alg/shortcutbridging.cpp:30-61 | the arena holds the 6 * sideLen boundary objects and distinct interior particles, none on an object |

## Findings

| source | as written | input that shows it | evidently intended | confidence | as-written member | corrected member |
|---|---|---|---|---|---|---|
| alg/separation.cpp:197 | `labels[(i - offset + labels.size()) % labels.size()]` with `int i` and `uint offset`: `i - offset` wraps modulo 2^32 and is then widened to a 64-bit `size_t`, so once offset > i the index is (2^32 + i - offset) mod n | a hypothetical view with ten unique labels, S = [0], counted neighbours at labels 0, 8 and 9 only: the first clockwise step reads position 5, which is empty, so `adjNbrs` = {0} and `checkProp1` returns false | the clockwise sweep visits positions i - 1, i - 2, ... wrapping to n - 1: it marks 9 and 8, `adjNbrs` = {0, 8, 9} and Property 1 holds | latent: certain for a 64-bit `size_t` when n does not divide 2^32, unreachable in this system, where `checkProp1` only sees the eight labels of an expanded particle; not executed | `Separation.ClockwiseWrapCounterexample` (over `Separation.Prop1AsWritten`) | `Separation.SweepCwIsRun` (over `Separation.CwAt` and `Separation.Prop1`) |

## Left out

- Floating-point parts: `q`, `lambda`, `kappa` and `pow` in `activate` are left out. The Metropolis test
  is the oracle `accepts`, applied to the change in neighbour count and the change in same-team
  neighbour count. `sideLen = round(1.4 * sqrt(n))` is a parameter.
- Randomness: `randDir`, `randDouble` and `randInt` are inputs. They are the label `expandDir`, the
  `accepts` oracle, and the `Draw` records of the placement loop. `Draw` records are assumed to lie in
  `randInt`'s half-open ranges, x in [-sideLen+1, sideLen) and y in [1, 2*sideLen).
- The framework (`AmoebotParticle`, `AmoebotSystem`) is not part of this model. Label resolution,
  `canExpand`, `pointsAtMyHead` and the neighbourhood after expanding are inputs. `expand`,
  `contractHead` and `contractTail` become the returned `Move`. `insert` is an append to the system's
  `objects` or `particles` list.
- Separation.SeparationParticle.Activate: the swap branch (alg/separation.cpp:30-49) is modelled as
  `Stay`, changing no field. As shown it does not compile against alg/separation.h, where `team` is
  `const` (alg/separation.h:39). With a mutable `team` it would switch this particle's team whenever
  the swap test passes; only the write to the neighbour is lost, since it goes to a by-value copy.
  The model does not capture that team switch. The abort in `nbrAtLabel` when no neighbour sits at `expandDir` is not
  modelled.
- Separation.SweepCw: it, `MarkCw` and `Marked` read the clockwise labels in cyclic order. With the 64-bit
  `size_t` of common platforms the source's index does the same exactly when the label count divides 2^32,
  which includes the eight labels of an expanded particle (`SweepCwAsWrittenWhenDivides`). For other counts
  the behaviour as written is `SweepCwAsWritten`; the Findings table gives a hypothetical input where the two differ.
- Separation.SweepCwIsRun: it characterises the intended clockwise sweep; for label counts dividing 2^32
  this is also the sweep as written.
- Separation.CheckProp1: it returns the intended verdict `Prop1`, which `Activate` also uses. The verdict as
  written is `Prop1AsWritten`, equal to it for an expanded particle (`ExpandedVerdictAsWritten`).
- Separation.CheckProp1: the assertions that the particle is expanded and that `flag` is set are not
  preconditions, because the `View` does not carry them. `Activate` calls it only in that state.
- Separation.CheckProp2: the same holds for its assertions on the expanded state and `flag`.
- Separation.Prop1Meaning: it assumes, rather than derives, that the unique labels are distinct and
  that the seed labels occur among them. Both come from the unseen framework's label tables.
- Arena.ShortcutBridgingSystem.PlaceParticles: the loop also stops when the finite sequence of draws
  runs out. In the original it runs until `numParticles` particles are placed, which terminates only
  with probability one.
- Lattice.DistanceBetween: coordinates and counters are unbounded integers. The 32-bit `int` of the
  original would only overflow far outside any lattice the simulator builds.
- `inspectionText`, `headMarkColor`, `tailMarkColor` and `hasTerminated` are display and driver code
  for the UI. `SeparationSystem`'s constructor (alg/separation.cpp:256-299) is random setup
  code outside the three modelled pieces. The `ShortcutBridgingParticle` members are empty stubs.
- The members of the `.h` files that have no body in the `.cpp` files are left out. The model follows
  the `.cpp` text wherever the two disagree, for example on `numNbrsTeamBefore` and `nbrCountTeam`.
- The `Object` datatype keeps only the record of core/object.h. It has no behaviour to model.
