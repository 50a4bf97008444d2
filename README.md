# rsgpeq engine in Dafny

A model of the evolutionary search engine of rsgpeq. rsgpeq does genetic-programming symbolic regression: it evolves expression trees over one variable `X` towards the trees that best fit a set of sample points. The model covers three layers:

- **Tree** (`tree.dfy`, from `src/node.rs`). The `Node` genome and its operations by pre-order index:
  - `count` and `get_node`;
  - `replace_node` and `depth_at_node`;
  - depth-budgeted `trim` and `random_node`.

  The program finds a node by threading the "index still to consume" through returned pairs. These functions are modelled literally. Each is then proved equal to an independent reference definition that works by arithmetic on `Count`: `Subtree`, `Put`, `NodeDepth`. `depth_at_node` is proved equal to the starting depth plus `ReportedDepth`, which differs from `NodeDepth` (see Findings). `Labels` flattens a tree in pre-order, which states "the rest of the tree is unchanged".
- **Individual** (`individual.dfy`, from `src/ind.rs`). An individual is a tree and its fitness. The genetic operators are `crossover`, `mutate`, `copy` and `random_ind`.
- **Engine** (`engine.dfy`, from `src/gp.rs` and `src/params.rs`). It covers:
  - `first_is_better`, `find_best`, `tourney_pick` and `get_op`;
  - `next_gen`, with the elite copy, the growing pool and the drain;
  - `finished`, `init_pop` and the `run_gp` loop.

  The loops are methods. Each is proved equal to a recursive specification function, and the properties are proved about those functions. `RunGp` returns the best member of `RunFrom`, the generation at which the check loop `RunUntil` stops when each step is `next_gen`. That generation is `Evolve` applied as many times as the loop ran, and no earlier check finished.

  The engine is parameterised by the genetic operators it breeds with (`Engine.Operators`). `Engine.AsWritten` holds the program's own `crossover` and `mutate`. `Engine.Corrected` holds the versions with the true node depth. The population size, elitism, the best fitness never getting worse and scoring hold for both. The `max_depth` bound holds only for operators that keep depth (`Engine.KeepsDepth`). The corrected operators do (`Engine.CorrectedKeepsDepth`); the program's own do not (`Engine.AsWrittenExceedsDepth`).

The entities are datatypes: `Tree.Node` is the `Node` enum (src/node.rs:10-18), with the four operators folded into one `BinOp` case; `Individual.Ind` is the `Ind` struct (src/ind.rs:11-14); `Engine.Params` is the `Params` struct (src/params.rs:3-11).

Randomness is an explicit stream of draws (`rng.dfy`). Every consumer returns the rest of the stream. Fitness is a parameter `fit: Node -> real`. The stop channel is a script `polls` that says, for each poll, whether a message is waiting.

Facts about the code that the model makes explicit:

- Tournaments sample with replacement. So even a tournament as large as the population can miss its best member (`Engine.TourneyCanMissBest`).
- `depth_at_node` adds one per descent, but it discards the depth found in the left subtree and carries on into the right subtree (src/node.rs:115-116). So it can report a depth other than the node's. Crossover and mutate budget the new subtree with that depth, so they can breed a child deeper than `max_depth` (see Findings). The model keeps the operators as written (`Individual.Crossover`, `Individual.Mutate`). It proves where they go wrong and where they agree with the corrected ones (`Individual.CrossoverFixed`, `Individual.MutateFixed`).

## Model

| member | source | states |
|---|---|---|
| Rng.GenRange | src/gp.rs:92-94 | A draw reduced by `gen_range(0..n)` lies in `[0, n)`. |
| Tree.Count | src/node.rs:21-30 | A tree has at least one node. |
| Tree.GetNode | src/node.rs:32-49 | `get_node` as written, threading the index still to consume. It has no `ensures` of its own; its facts are `Tree.GetNodeFound` and `Tree.GetNodeMissing`. |
| Tree.GetNodeMissing | src/node.rs:32-49 | For an index below 0 or at least `count`, `get_node` hands back the default unchanged, and the remaining index is `i - count + 1`. This is the threading invariant the right sibling relies on. |
| Tree.Subtree | src/node.rs:32-49 | Reference lookup of the subtree at pre-order index `i`. It ends within the tree. |
| Tree.GetNodeFound | src/node.rs:32-49 | For `0 <= i < count`, `get_node` consumes the whole index and returns the subtree at pre-order index `i`: root, then left subtree, then right subtree. |
| Tree.ReplaceNode | src/node.rs:51-83 | `replace_node` as written. It has no `ensures` of its own; its facts are `Tree.ReplaceNodeMissing`, `Tree.ReplaceNodeThreadsLikeGetNode`, `Tree.ReplaceNodeIsPut`, `Tree.ReplaceNodeFound` and `Tree.ReplaceNodeHeight`. |
| Tree.ReplaceNodeMissing | src/node.rs:51-83 | Out of range, `replace_node` returns a tree equal to the original, with the same remaining index as `get_node`. |
| Tree.ReplaceNodeThreadsLikeGetNode | src/node.rs:51-83 | `replace_node` consumes the index exactly as `get_node` does, for every index. |
| Tree.ReplaceNodeIsPut | src/node.rs:51-83 | In range, `replace_node` builds the reference replacement `Put(t, i, x)`. |
| Tree.PutFound | src/node.rs:51-83 | The reference replacement holds `x` at index `i`. Its pre-order labels are those of `t` with the old subtree's labels swapped for those of `x`. Its count is `count(t) - count(old subtree) + count(x)`. |
| Tree.ReplaceNodeFound | src/node.rs:51-83 | The same three facts for `replace_node` itself, for every in-range index. With `i = 0` the result is `x`. |
| Tree.PutOwnSubtree | src/node.rs:51-83 | Putting back the subtree found at `i` gives back the tree. |
| Tree.ReplaceNodeWithOwnSubtree | src/node.rs:32-83 | `replace_node(i, get_node(i))` gives back the original tree. |
| Tree.NodeDepth | src/node.rs:104-121 | Reference depth (root = 0) of the node at index `i`. It never exceeds the height. |
| Tree.RightSpine | src/node.rs:104-121 | Length of the chain of right children. It never exceeds the height. |
| Tree.ReportedDepth | src/node.rs:104-121 | What `depth_at_node` reports for index `i`. It never exceeds the height. |
| Tree.DepthAtNode | src/node.rs:104-121 | `depth_at_node` as written. It has no `ensures` of its own; its facts are `Tree.DepthAtNodeMissing`, `Tree.DepthAtNodeFound`, `Tree.DepthAtNodeUnderreports` and `Tree.DepthAtNodeOverreports`. |
| Tree.DepthAtNodeMissing | src/node.rs:104-121 | Out of range, `depth_at_node` consumes the index as `get_node` does. The depth it reports grows by the length of the right spine. |
| Tree.DepthAtNodeFound | src/node.rs:104-121 | In range, `depth_at_node` consumes the index. It reports `ReportedDepth`, which never exceeds the starting depth plus the height. |
| Tree.ReportedDepthExactOnRightPath | src/node.rs:104-121 | When every step to the node goes into a right child, the reported depth is the true depth. |
| Tree.DepthAtNodeUnderreports | src/node.rs:115-116 | A node two levels down on the left is reported at depth 1. |
| Tree.DepthAtNodeOverreports | src/node.rs:115-116 | A left child whose sibling has a long right spine is reported deeper than it is. |
| Tree.DepthAtNodeFixed | src/node.rs:115-116 | The corrected depth search: the right subtree is searched only when the left one did not find the node. It has no `ensures` of its own; its facts are `Tree.DepthAtNodeFixedMissing` and `Tree.DepthAtNodeFixedExact`. |
| Tree.DepthAtNodeFixedMissing | src/node.rs:104-121 | The corrected depth search consumes an index past the end (`i >= count`) as `get_node` does. |
| Tree.DepthAtNodeFixedExact | src/node.rs:104-121 | The corrected depth search returns the true depth of every in-range node. |
| Tree.PutHeight | src/node.rs:51-83 | After a replacement, the height is at most the larger of the old height and (depth of the node + height of `x`). |
| Tree.ReplaceNodeHeight | src/node.rs:51-83 | The same height bound for `replace_node`. |
| Tree.RandomNode | src/node.rs:162-205 | `random_node` consumes draws and never more than the stream holds. |
| Tree.RandomNodeHeight | src/node.rs:162-205 | For `d >= 0`, `random_node(d)` has height at most `d - 1` (0 for `d <= 1`), and is a leaf for `d` in {0, 1}. |
| Tree.Trim | src/node.rs:123-159 | `trim` as written. It has no `ensures` of its own; its facts are `Tree.TrimHeight` and `Tree.TrimKeepsFittingTree`. |
| Tree.TrimHeight | src/node.rs:123-159 | For a budget `d >= 0`, `trim(d)` has height at most `d`. At budget 0 the result is a leaf. |
| Tree.TrimKeepsFittingTree | src/node.rs:123-159 | A tree of height at most the budget comes back unchanged, leaves included. So does any tree under a negative budget. No draws are consumed. |
| Individual.CrossoverPoints | src/ind.rs:18-23 | `p_point` lies in the provider and `r_point` in the receiver. |
| Individual.Graft | src/ind.rs:21-29 | The provider's subtree at `p_point`, trimmed to the budget, replaces the receiver's subtree at `r_point`. The child is scored afresh. |
| Individual.Crossover | src/ind.rs:17-30 | Crossover as written. The child is `Put(self, r_point, trim(Subtree(provider, p_point), max_depth - ReportedDepth))`, and its fitness is recomputed from the new tree. |
| Individual.CrossoverFixed | src/ind.rs:17-30 | The same with the true depth of `r_point` in the budget. |
| Individual.CrossoverChild | src/ind.rs:25-26 | The child holds the trimmed donor at `r_point` and is otherwise the receiver. Its count is `count(self) - count(old subtree) + count(donor)`. |
| Individual.MutatePoint | src/ind.rs:33-35 | `n_point` lies in the tree. |
| Individual.Regrow | src/ind.rs:37-41 | A subtree grown within the budget replaces the one at `n_point`. The child is scored afresh. |
| Individual.Mutate | src/ind.rs:32-42 | Mutate as written. The child is `Put(self, n_point, random_node(max_depth - ReportedDepth))`, and its fitness is recomputed. |
| Individual.MutateFixed | src/ind.rs:32-42 | The same with the true depth of `n_point` in the budget. |
| Individual.MutateChild | src/ind.rs:37-38 | The child holds the generated subtree at `n_point` and is otherwise the parent. Its count changes accordingly. |
| Individual.Copy | src/ind.rs:44-46 | `copy` keeps the tree and the fitness, without recomputing it. |
| Individual.RandomInd | src/ind.rs:53-57 | `random_ind` is scored. For `max_depth >= 0` its height is at most `max_depth - 1` (0 at `max_depth <= 1`). At `max_depth` 0 or 1 it is a leaf. |
| Individual.CrossoverFixedKeepsDepth | src/ind.rs:24-25 | With the true depth, a receiver within `max_depth` gives a child within `max_depth`. |
| Individual.MutateFixedKeepsDepth | src/ind.rs:36-37 | With the true depth, a parent within `max_depth` gives a child within `max_depth`. |
| Individual.CrossoverAgreesOnRightPath | src/ind.rs:24-25 | When `r_point` lies on a path of right children, crossover as written equals the corrected one. |
| Individual.MutateAgreesOnRightPath | src/ind.rs:36-37 | When `n_point` lies on a path of right children, mutate as written equals the corrected one. |
| Individual.CrossoverKeepsDepthOnRightPath | src/ind.rs:24-25 | Crossover as written keeps `max_depth` when `r_point` lies on a path of right children. |
| Individual.MutateKeepsDepthOnRightPath | src/ind.rs:36-37 | Mutate as written keeps `max_depth` when `n_point` lies on a path of right children. |
| Individual.CrossoverExceedsMaxDepth | src/ind.rs:24-25 | A receiver of height 2 with `max_depth` 2 yields a child of height 3. |
| Individual.MutateExceedsMaxDepth | src/ind.rs:36-37 | A parent of height 3 with `max_depth` 3 yields a child of height 4. |
| Engine.FirstIsBetter | src/gp.rs:49-51 | Strictly lower fitness is better. It has no `ensures` of its own; the strict comparison is what `Engine.BestIndex` and `Engine.WinnerFirst` rely on for ties. |
| Engine.BestIndex | src/gp.rs:39-51 | Among the first `n` members, the first one of least fitness: no member is strictly fitter, and every earlier one is strictly worse. |
| Engine.FindBest | src/gp.rs:39-47 | The scan returns `BestIndex(pop, pop_size)`, an index whose fitness is at most that of every one of the first `pop_size` members. |
| Engine.Rounds | src/gp.rs:92-93 | A tournament draws `1 + max(0, tourney_size - 1)` indices. |
| Engine.Picks | src/gp.rs:92-94 | The indices a tournament draws: the first `k` draws of the stream, one per round, each reduced by `gen_range(0..len)` into `[0, len)`. |
| Engine.Winner | src/gp.rs:92-98 | The kept contender is one of the drawn ones, and no drawn contender is strictly fitter. |
| Engine.WinnerFirst | src/gp.rs:93-97 | Ties go to the earliest draw: the winner was drawn in some round `k`, and every contender drawn before round `k` is strictly less fit. |
| Engine.WinnerExtends | src/gp.rs:94-97 | One more round replaces the incumbent only by a strictly fitter contender. |
| Engine.Tourney | src/gp.rs:90-99 | The tournament result is a valid index drawn in one of the rounds, and no drawn index is fitter. It consumes exactly `Rounds(tourney_size)` draws. |
| Engine.TourneyPick | src/gp.rs:90-99 | The loop computes `Tourney`: same winner, same remaining stream. |
| Engine.TourneyCanMissBest | src/gp.rs:90-99 | With two members and `tourney_size` 2, the fitter member can be missed. |
| Engine.GetOp | src/gp.rs:82-88 | The operator code is 0, 1 or 2. |
| Engine.GetOpBands | src/gp.rs:82-88 | 0 iff `r < p_crossover`; 1 iff `p_crossover <= r < p_crossover + p_mutate`; 2 otherwise. |
| Engine.GetOpMonotone | src/gp.rs:82-88 | With `p_mutate >= 0`, a larger draw never selects an earlier operator. |
| Engine.GetOpIgnoresCopy | src/params.rs:3-11 | `p_copy` never affects the choice of operator. |
| Engine.Finished | src/gp.rs:25-29 | `finished` on the poll's result. It has no `ensures` of its own; its facts are `Engine.FinishedAtLimit`, `Engine.NoLimitWhenNotPositive` and, over a run, `Engine.RunFromChecks`. |
| Engine.FinishedAtLimit | src/gp.rs:25-29 | A positive `max_generations` stops the run once reached. |
| Engine.NoLimitWhenNotPositive | src/gp.rs:25-29 | With `max_generations <= 0`, only fitness below 0.01 or a pending message stops the run. |
| Engine.Pending | src/gp.rs:26 | What `rx.try_recv()` finds at poll `g`: the scripted result, and a message for any poll past the end of the script. It has no `ensures` of its own; its facts over a run are `Engine.RunFromPolls` and `Engine.RunGp`. |
| Engine.AsWritten | src/gp.rs:62-75 | The program's own operator pair, `crossover` and `mutate` as called at src/gp.rs:66 and src/gp.rs:70. It has no `ensures` of its own; its facts are `Engine.AsWrittenScores` and `Engine.AsWrittenExceedsDepth`. |
| Engine.Corrected | src/ind.rs:17-42 | The corrected operator pair, `crossover` and `mutate` with the true node depth in the budget (`Individual.CrossoverFixed`, `Individual.MutateFixed`). It has no `ensures` of its own; its facts are `Engine.CorrectedScores` and `Engine.CorrectedKeepsDepth`. |
| Engine.AsWrittenScores | src/ind.rs:17-42 | The program's `crossover` and `mutate` give every child the fitness of its tree. |
| Engine.CorrectedScores | src/ind.rs:17-42 | So do the corrected operators. |
| Engine.CorrectedKeepsDepth | src/ind.rs:17-42 | The corrected operators keep every child of a parent within `max_depth` within it. |
| Engine.AsWrittenExceedsDepth | src/ind.rs:24-25 | The program's operators do not: some crossover breeds a child deeper than `max_depth` from a receiver within it. |
| Engine.Breed | src/gp.rs:59-76 | One pass of the breeding loop with the given operators. On the copy branch, the child is the tournament winner unchanged. |
| Engine.BreedScored | src/gp.rs:62-75 | With operators that score their children, a child bred from a well-scored pool carries its tree's fitness. |
| Engine.BreedWithin | src/gp.rs:62-75 | With operators that keep depth, a child bred from a pool within `max_depth` is within it. |
| Engine.Grow | src/gp.rs:58-77 | Growing appends children until the pool holds `2 * pop_size` members, and the pool it started from is a prefix. |
| Engine.GrowWellScored | src/gp.rs:58-77 | With operators that score their children, growing keeps every member scored. |
| Engine.GrowWithin | src/gp.rs:58-77 | With operators that keep depth, growing keeps every member within `max_depth`. |
| Engine.NextGeneration | src/gp.rs:53-80 | The new generation has `pop_size` members, and its first is the old generation's `find_best` member. |
| Engine.NextGenerationKeepsBest | src/gp.rs:55-56 | The best fitness of the next generation is at most that of the current one. |
| Engine.NextGenerationWellScored | src/gp.rs:53-80 | With operators that score their children, a well-scored generation breeds a well-scored one. |
| Engine.NextGenerationWithin | src/gp.rs:53-80 | With operators that keep depth, a generation within `max_depth` breeds one within `max_depth`. |
| Engine.NextGen | src/gp.rs:53-80 | The push/while/drain loop computes `NextGeneration`: `pop_size` members, led by the old best. |
| Engine.Spawn | src/gp.rs:31-37 | `init_pop` yields `pop_size` (or no) members, all scored. Within `max_depth` when it is `>= 0`. |
| Engine.InitPop | src/gp.rs:31-37 | The loop computes `Spawn`. |
| Engine.BestOf | src/gp.rs:18-22 | The `find_best` member of a generation: no one of its first `pop_size` members is fitter. |
| Engine.Step | src/gp.rs:16 | The `next_gen` call of the loop body as a step on (generation, stream). It has no `ensures` of its own; its facts are `Engine.StepKeepsSize` and `Engine.StepIsNextGeneration`. |
| Engine.StepKeepsSize | src/gp.rs:16 | A step from a generation of `pop_size` members gives one of `pop_size` members. |
| Engine.StopAt | src/gp.rs:15 | The loop condition as a check on (generation number, state), through `Engine.Stops`: `finished` on a generation of exactly `pop_size` members, and a stop on any other state. Neither has an `ensures` of its own; their fact is `Engine.StopAtFinished`. |
| Engine.StopAtFinished | src/gp.rs:15 | On a generation of `pop_size` members, the check is `finished` applied to its `find_best` member and to poll `g`. |
| Engine.RunUntil | src/gp.rs:15-20 | A loop that checks before every step ends at a check that stopped it or at the bound, never before the check it started from. |
| Engine.RunUntilLast | src/gp.rs:15-20 | The loop ends in the state reached by as many steps as it ran. |
| Engine.RunUntilChecked | src/gp.rs:15-20 | Every check before the one that ended the loop was below the bound and did not stop it. |
| Engine.EvolveSize | src/gp.rs:15-17 | Any number of `next_gen` calls keep `pop_size` members. |
| Engine.Evolve | src/gp.rs:15-17 | The generation after `k` calls of `next_gen` has `pop_size` members. |
| Engine.EvolveKeepsBest | src/gp.rs:15-18 | Over any number of generations the best fitness never gets worse. |
| Engine.EvolveWellScored | src/gp.rs:15-17 | With operators that score their children, every generation stays well scored. |
| Engine.EvolveWithin | src/gp.rs:15-17 | With operators that keep depth, every generation stays within `max_depth`. |
| Engine.RunFrom | src/gp.rs:15-20 | The run stops by the last scripted poll, on a generation of `pop_size` members. |
| Engine.RunFromEnd | src/gp.rs:15-22 | The run stops at `Evolve` of as many generations as it ran. The check there finished, and its best is no worse than the first generation's. |
| Engine.RunFromPassed | src/gp.rs:15 | A check the run went past did not stop it. |
| Engine.RunFromCheck | src/gp.rs:15 | A check the run went past saw a best that did not finish it. |
| Engine.RunFromChecks | src/gp.rs:15 | No check before the last one finished: the best was not fit enough, the limit was not reached and no message was pending. |
| Engine.RunFromPolls | src/gp.rs:25-28 | No poll before the last one found a message, and a positive `max_generations` bounds the number of generations. |
| Engine.RunGp | src/gp.rs:9-23 | The run is `RunFrom` on the initial population: it returns the `find_best` member of `Evolve` after `gens` generations. That check finished and no earlier check did. It never passes a poll that found a message and stops by a positive `max_generations`. The member is no worse than any member of the first generation. It is scored when the operators score their children, and within `max_depth` when they keep depth. |

## Findings

| source | as written | input that shows it | evidently intended | confidence | as-written member | corrected member |
|---|---|---|---|---|---|---|
| src/node.rs:115-116 | the right subtree is searched with `depth + 1` even when the left subtree already found the node, so the found depth is discarded | tree `(X + X) + X`, index 2: reported depth 1, true depth 2 | return the depth found in the left subtree | high (not executed) | Tree.DepthAtNodeUnderreports | Tree.DepthAtNodeFixedExact |
| src/ind.rs:24-25 | crossover trims the donor to `max_depth` minus the misreported depth | receiver `(X + X) + X`, donor `X - X`, `max_depth` 2, `p_point` 0, `r_point` 2: child of height 3 | the child stays within `max_depth` | high (not executed) | Individual.CrossoverExceedsMaxDepth | Individual.CrossoverFixedKeepsDepth |
| src/ind.rs:36-37 | mutate grows a subtree of `max_depth` minus the misreported depth | parent `((X + X) + X) + X`, `max_depth` 3, `n_point` 3, generated `X + X`: child of height 4 | the child stays within `max_depth` | high (not executed) | Individual.MutateExceedsMaxDepth | Individual.MutateFixedKeepsDepth |

## Left out

- `src/main.rs`: reading the sample file, parsing arguments, spawning threads, stdin and sending on the channel. These are I/O and concurrency.
- Fitness evaluation. `exec` (src/node.rs:85-102) and `calc_fitness` (src/ind.rs:49-51) are f64 arithmetic. Fitness is the parameter `fit`, a total function from trees to reals.
- Floating point: `f64` is modelled as `real`. NaN comparisons (always false at src/gp.rs:50 and src/gp.rs:84-85), infinities and rounding are not modelled.
- `i32` overflow of counts, indices, depths and the generation counter. All are unbounded integers.
- Randomness is a finite stream of draws. Uniformity, the generator's state and the leaf probabilities are not modelled.
  - `gen_range(0..n)` is `pick % n`.
  - One draw serves a `gen_range` together with the `gen::<f64>` that follows it: the leaf value in `random_node`.
  - The operator draw `op_rng` in `next_gen` uses one draw of its own.
  - An exhausted stream yields pick 1 and value 0.0.
- Tree.RandomNode: with a negative budget the source's recursion has no depth bound (src/node.rs:173-201). In the model the finite stream bounds it: at the end of the stream the generator returns `Var`.
- The unused first components of the accumulator pairs of `get_node` and `depth_at_node` (`pair.0`, `n_index`) are dropped.
- `Display` for `Node` and `Ind`, and the `println!` progress output of `run_gp` (src/gp.rs:13, 19).
- The stop channel is a script of poll results.
  - A poll past the end of the script finds a message, so every modelled run terminates.
  - Runs that never stop, and a disconnected channel (which never stops the run), are not modelled separately.
- Engine.NextGen, Engine.RunGp: require `pop_size >= 1`. With an empty population the source indexes element 0 and panics.
- Engine.BreedWithin: the `max_depth` bound is proved only for operators that keep depth. The program's own operators do not (`Engine.AsWrittenExceedsDepth`, see Findings).
- Engine.GrowWithin: the same restriction, for the same reason.
- Engine.NextGenerationWithin: the same restriction, for the same reason.
- Engine.EvolveWithin: the same restriction, for the same reason.
- Engine.RunGp: the `max_depth` clause holds only for operators that keep depth, such as `Engine.Corrected`. A run with the program's own operators (`Engine.AsWritten`) can return a member deeper than `max_depth`.
- Engine.Step, Engine.StopAt: a state whose population does not hold exactly `pop_size` members is left unchanged by a step and stops the loop at once. Such states never arise from `init_pop`.
- `Vec<Box<Ind>>` storage, cloning and boxing are not modelled. The population is a value sequence, and the vector `next_gen` grows and drains is a local sequence.
