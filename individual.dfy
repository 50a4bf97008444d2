/**
 * Individuals of the population and the genetic operators that breed them.
 *
 * An individual pairs a tree with its fitness (lower is better). The fitness
 * function is a parameter `fit`: how a tree is scored against the data points
 * is not part of this model. The operators never change their arguments; each
 * returns a fresh individual together with the rest of the draw stream.
 */
module Individual {
  import opened Rng
  import opened Tree

  datatype Ind = Ind(tree: Node, fitness: real)

  /** The fitness an individual carries is the one its tree scores. */
  predicate Scored(ind: Ind, fit: Node -> real) {
    ind.fitness == fit(ind.tree)
  }

  // ---------------------------------------------------------------------------
  // crossover

  /** The two indices crossover draws: first in the provider, then in the receiver. */
  function CrossoverPoints(self: Ind, provider: Ind, rng: seq<Draw>): (points: (int, int))
    ensures 0 <= points.0 < Count(provider.tree)
    ensures 0 <= points.1 < Count(self.tree)
  {
    (GenRange(Head(rng).pick, Count(provider.tree)), GenRange(Head(Drop(rng, 1)).pick, Count(self.tree)))
  }

  /**
   * The grafting step shared by crossover and its corrected form: the subtree of
   * `provider` at pPoint, trimmed to `budget`, replaces the subtree of `self` at
   * rPoint, and the child is scored afresh.
   */
  function Graft(self: Ind, provider: Ind, pPoint: int, rPoint: int, budget: int, rng: seq<Draw>, fit: Node -> real): (res: (Ind, seq<Draw>))
    requires 0 <= pPoint < Count(provider.tree) && 0 <= rPoint < Count(self.tree)
    ensures var donor := Trim(Subtree(provider.tree, pPoint), budget, rng);
            && res.1 == donor.1
            && res.0.tree == Put(self.tree, rPoint, donor.0)
            && Scored(res.0, fit)
  {
    var pTree := GetNode(provider.tree, pPoint, provider.tree).1;
    var trimmed := Trim(pTree, budget, rng);
    var newTree := ReplaceNode(self.tree, rPoint, trimmed.0).1;
    GetNodeFound(provider.tree, pPoint, provider.tree);
    ReplaceNodeIsPut(self.tree, rPoint, trimmed.0);
    (Ind(newTree, fit(newTree)), trimmed.1)
  }

  /**
   * `crossover` as written: draw p_point and r_point, trim the donor to
   * max_depth minus what `depth_at_node` reports for r_point, graft it.
   */
  function Crossover(self: Ind, provider: Ind, maxDepth: int, rng: seq<Draw>, fit: Node -> real): (res: (Ind, seq<Draw>))
    ensures var (pPoint, rPoint) := CrossoverPoints(self, provider, rng);
            var donor := Trim(Subtree(provider.tree, pPoint), maxDepth - ReportedDepth(self.tree, rPoint), Drop(rng, 2));
            && res.1 == donor.1
            && res.0.tree == Put(self.tree, rPoint, donor.0)
            && Scored(res.0, fit)
  {
    var (pPoint, rPoint) := CrossoverPoints(self, provider, rng);
    DepthAtNodeFound(self.tree, rPoint, 0);
    Graft(self, provider, pPoint, rPoint, maxDepth - DepthAtNode(self.tree, rPoint, 0).1, Drop(rng, 2), fit)
  }

  /** `crossover` with the corrected depth search: the donor is trimmed to max_depth minus the true depth. */
  function CrossoverFixed(self: Ind, provider: Ind, maxDepth: int, rng: seq<Draw>, fit: Node -> real): (res: (Ind, seq<Draw>))
    ensures var (pPoint, rPoint) := CrossoverPoints(self, provider, rng);
            var donor := Trim(Subtree(provider.tree, pPoint), maxDepth - NodeDepth(self.tree, rPoint), Drop(rng, 2));
            && res.1 == donor.1
            && res.0.tree == Put(self.tree, rPoint, donor.0)
            && Scored(res.0, fit)
  {
    var (pPoint, rPoint) := CrossoverPoints(self, provider, rng);
    DepthAtNodeFixedExact(self.tree, rPoint, 0);
    Graft(self, provider, pPoint, rPoint, maxDepth - DepthAtNodeFixed(self.tree, rPoint, 0).1, Drop(rng, 2), fit)
  }

  // ---------------------------------------------------------------------------
  // mutate

  /** The grafting step shared by mutate and its corrected form: a fresh subtree grown within `budget` replaces the one at nPoint. */
  function Regrow(self: Ind, nPoint: int, budget: int, rng: seq<Draw>, fit: Node -> real): (res: (Ind, seq<Draw>))
    requires 0 <= nPoint < Count(self.tree)
    ensures var grown := RandomNode(budget, rng);
            && res.1 == grown.1
            && res.0.tree == Put(self.tree, nPoint, grown.0)
            && Scored(res.0, fit)
  {
    var grown := RandomNode(budget, rng);
    var newTree := ReplaceNode(self.tree, nPoint, grown.0).1;
    ReplaceNodeIsPut(self.tree, nPoint, grown.0);
    (Ind(newTree, fit(newTree)), grown.1)
  }

  /** The index mutate draws. */
  function MutatePoint(self: Ind, rng: seq<Draw>): (n: int)
    ensures 0 <= n < Count(self.tree)
  {
    GenRange(Head(rng).pick, Count(self.tree))
  }

  /**
   * `mutate` as written: draw n_point, grow `random_node(max_depth - d)` where
   * d is what `depth_at_node` reports, graft it.
   */
  function Mutate(self: Ind, maxDepth: int, rng: seq<Draw>, fit: Node -> real): (res: (Ind, seq<Draw>))
    ensures var nPoint := MutatePoint(self, rng);
            var grown := RandomNode(maxDepth - ReportedDepth(self.tree, nPoint), Drop(rng, 1));
            && res.1 == grown.1
            && res.0.tree == Put(self.tree, nPoint, grown.0)
            && Scored(res.0, fit)
  {
    var nPoint := MutatePoint(self, rng);
    DepthAtNodeFound(self.tree, nPoint, 0);
    Regrow(self, nPoint, maxDepth - DepthAtNode(self.tree, nPoint, 0).1, Drop(rng, 1), fit)
  }

  /** `mutate` with the corrected depth search. */
  function MutateFixed(self: Ind, maxDepth: int, rng: seq<Draw>, fit: Node -> real): (res: (Ind, seq<Draw>))
    ensures var nPoint := MutatePoint(self, rng);
            var grown := RandomNode(maxDepth - NodeDepth(self.tree, nPoint), Drop(rng, 1));
            && res.1 == grown.1
            && res.0.tree == Put(self.tree, nPoint, grown.0)
            && Scored(res.0, fit)
  {
    var nPoint := MutatePoint(self, rng);
    DepthAtNodeFixedExact(self.tree, nPoint, 0);
    Regrow(self, nPoint, maxDepth - DepthAtNodeFixed(self.tree, nPoint, 0).1, Drop(rng, 1), fit)
  }

  /**
   * The crossover child holds the trimmed donor at r_point and is otherwise the
   * receiver; its count is the receiver's with the old subtree's count swapped
   * for the donor's.
   */
  lemma CrossoverChild(self: Ind, provider: Ind, maxDepth: int, rng: seq<Draw>, fit: Node -> real)
    ensures var (pPoint, rPoint) := CrossoverPoints(self, provider, rng);
            var donor := Trim(Subtree(provider.tree, pPoint), maxDepth - ReportedDepth(self.tree, rPoint), Drop(rng, 2)).0;
            var child := Crossover(self, provider, maxDepth, rng, fit).0.tree;
            && ReplacedAt(self.tree, rPoint, donor, child)
            && Count(child) == Count(self.tree) - Count(Subtree(self.tree, rPoint)) + Count(donor)
  {
    var (pPoint, rPoint) := CrossoverPoints(self, provider, rng);
    var donor := Trim(Subtree(provider.tree, pPoint), maxDepth - ReportedDepth(self.tree, rPoint), Drop(rng, 2)).0;
    var child := Crossover(self, provider, maxDepth, rng, fit).0.tree;
    assert child == Put(self.tree, rPoint, donor);
    PutFound(self.tree, rPoint, donor);
  }

  /** The mutated child holds the generated subtree at n_point and is otherwise the parent. */
  lemma MutateChild(self: Ind, maxDepth: int, rng: seq<Draw>, fit: Node -> real)
    ensures var nPoint := MutatePoint(self, rng);
            var grown := RandomNode(maxDepth - ReportedDepth(self.tree, nPoint), Drop(rng, 1)).0;
            var child := Mutate(self, maxDepth, rng, fit).0.tree;
            && ReplacedAt(self.tree, nPoint, grown, child)
            && Count(child) == Count(self.tree) - Count(Subtree(self.tree, nPoint)) + Count(grown)
  {
    var nPoint := MutatePoint(self, rng);
    var grown := RandomNode(maxDepth - ReportedDepth(self.tree, nPoint), Drop(rng, 1)).0;
    assert Mutate(self, maxDepth, rng, fit).0.tree == Put(self.tree, nPoint, grown);
    PutFound(self.tree, nPoint, grown);
  }

  // ---------------------------------------------------------------------------
  // copy and random_ind

  /** `copy`: the same tree and the same fitness, which is not recomputed. */
  function Copy(self: Ind): (c: Ind)
    ensures c.tree == self.tree && c.fitness == self.fitness
  {
    self
  }

  /** `random_ind`: a tree from `random_node(max_depth)`, scored. */
  function RandomInd(maxDepth: int, rng: seq<Draw>, fit: Node -> real): (res: (Ind, seq<Draw>))
    ensures Scored(res.0, fit)
    ensures |res.1| <= |rng|
    ensures maxDepth >= 0 ==> Height(res.0.tree) <= GenBound(maxDepth) <= maxDepth
    ensures 0 <= maxDepth <= 1 ==> res.0.tree.IsLeaf()
  {
    var node := RandomNode(maxDepth, rng);
    if maxDepth >= 0 then RandomNodeHeight(maxDepth, rng); (Ind(node.0, fit(node.0)), node.1)
    else (Ind(node.0, fit(node.0)), node.1)
  }

  // ---------------------------------------------------------------------------
  // Depth bounds

  /** With the corrected depth search, crossover keeps a tree that fits max_depth within it. */
  lemma CrossoverFixedKeepsDepth(self: Ind, provider: Ind, maxDepth: int, rng: seq<Draw>, fit: Node -> real)
    requires Height(self.tree) <= maxDepth
    ensures Height(CrossoverFixed(self, provider, maxDepth, rng, fit).0.tree) <= maxDepth
  {
    var (pPoint, rPoint) := CrossoverPoints(self, provider, rng);
    var budget := maxDepth - NodeDepth(self.tree, rPoint);
    var donor := Trim(Subtree(provider.tree, pPoint), budget, Drop(rng, 2));
    TrimHeight(Subtree(provider.tree, pPoint), budget, Drop(rng, 2));
    PutHeight(self.tree, rPoint, donor.0);
  }

  /** With the corrected depth search, mutate keeps a tree that fits max_depth within it. */
  lemma MutateFixedKeepsDepth(self: Ind, maxDepth: int, rng: seq<Draw>, fit: Node -> real)
    requires Height(self.tree) <= maxDepth
    ensures Height(MutateFixed(self, maxDepth, rng, fit).0.tree) <= maxDepth
  {
    var nPoint := MutatePoint(self, rng);
    var budget := maxDepth - NodeDepth(self.tree, nPoint);
    var grown := RandomNode(budget, Drop(rng, 1));
    RandomNodeHeight(budget, Drop(rng, 1));
    PutHeight(self.tree, nPoint, grown.0);
  }

  /** Where the receiving node lies on a path of right children, crossover as written is the corrected one. */
  lemma CrossoverAgreesOnRightPath(self: Ind, provider: Ind, maxDepth: int, rng: seq<Draw>, fit: Node -> real)
    requires RightPath(self.tree, CrossoverPoints(self, provider, rng).1)
    ensures Crossover(self, provider, maxDepth, rng, fit) == CrossoverFixed(self, provider, maxDepth, rng, fit)
  {
    var rPoint := CrossoverPoints(self, provider, rng).1;
    ReportedDepthExactOnRightPath(self.tree, rPoint);
    DepthAtNodeFixedExact(self.tree, rPoint, 0);
  }

  /** Where the mutated node lies on a path of right children, mutate as written is the corrected one. */
  lemma MutateAgreesOnRightPath(self: Ind, maxDepth: int, rng: seq<Draw>, fit: Node -> real)
    requires RightPath(self.tree, MutatePoint(self, rng))
    ensures Mutate(self, maxDepth, rng, fit) == MutateFixed(self, maxDepth, rng, fit)
  {
    var nPoint := MutatePoint(self, rng);
    ReportedDepthExactOnRightPath(self.tree, nPoint);
    DepthAtNodeFixedExact(self.tree, nPoint, 0);
  }

  /** Crossover as written respects max_depth when the receiving node lies on a path of right children. */
  lemma CrossoverKeepsDepthOnRightPath(self: Ind, provider: Ind, maxDepth: int, rng: seq<Draw>, fit: Node -> real)
    requires Height(self.tree) <= maxDepth
    requires RightPath(self.tree, CrossoverPoints(self, provider, rng).1)
    ensures Height(Crossover(self, provider, maxDepth, rng, fit).0.tree) <= maxDepth
  {
    CrossoverAgreesOnRightPath(self, provider, maxDepth, rng, fit);
    CrossoverFixedKeepsDepth(self, provider, maxDepth, rng, fit);
  }

  /** Mutate as written respects max_depth when the mutated node lies on a path of right children. */
  lemma MutateKeepsDepthOnRightPath(self: Ind, maxDepth: int, rng: seq<Draw>, fit: Node -> real)
    requires Height(self.tree) <= maxDepth
    requires RightPath(self.tree, MutatePoint(self, rng))
    ensures Height(Mutate(self, maxDepth, rng, fit).0.tree) <= maxDepth
  {
    MutateAgreesOnRightPath(self, maxDepth, rng, fit);
    MutateFixedKeepsDepth(self, maxDepth, rng, fit);
  }

  /**
   * Crossover as written can exceed max_depth: the receiver fits depth 2, the
   * node at index 2 is reported at depth 1, so a donor of height 1 is kept
   * whole and lands at true depth 2.
   */
  lemma CrossoverExceedsMaxDepth(fit: Node -> real)
    ensures var self := Ind(BinOp(Plus, BinOp(Plus, Var, Var), Var), fit(BinOp(Plus, BinOp(Plus, Var, Var), Var)));
            var provider := Ind(BinOp(Minus, Var, Var), fit(BinOp(Minus, Var, Var)));
            var child := Crossover(self, provider, 2, [Draw(0, 0.0), Draw(2, 0.0)], fit).0;
            Height(self.tree) <= 2 && Height(child.tree) == 3
  {
    var t := BinOp(Plus, BinOp(Plus, Var, Var), Var);
    var donor := BinOp(Minus, Var, Var);
    var rng := [Draw(0, 0.0), Draw(2, 0.0)];
    assert CrossoverPoints(Ind(t, fit(t)), Ind(donor, fit(donor)), rng) == (0, 2);
    assert ReportedDepth(t, 2) == 1;
    TrimKeepsFittingTree(donor, 1, Drop(rng, 2));
    assert Put(t, 2, donor) == BinOp(Plus, BinOp(Plus, donor, Var), Var);
  }

  /**
   * Mutate as written can exceed max_depth: the leaf at index 3 sits at true
   * depth 3 but is reported at depth 1, so a subtree of height 1 may grow there.
   */
  lemma MutateExceedsMaxDepth(fit: Node -> real)
    ensures var t := BinOp(Plus, BinOp(Plus, BinOp(Plus, Var, Var), Var), Var);
            var child := Mutate(Ind(t, fit(t)), 3, [Draw(3, 0.0), Draw(2, 0.0), Draw(1, 0.0), Draw(1, 0.0)], fit).0;
            Height(t) <= 3 && Height(child.tree) == 4
  {
    var t := BinOp(Plus, BinOp(Plus, BinOp(Plus, Var, Var), Var), Var);
    var rng := [Draw(3, 0.0), Draw(2, 0.0), Draw(1, 0.0), Draw(1, 0.0)];
    assert MutatePoint(Ind(t, fit(t)), rng) == 3;
    assert ReportedDepth(t, 3) == 1;
    assert Drop(rng, 1) == [Draw(2, 0.0), Draw(1, 0.0), Draw(1, 0.0)];
    assert RandomNode(2, Drop(rng, 1)).0 == BinOp(Plus, Var, Var);
    assert Put(t, 3, BinOp(Plus, Var, Var)) == BinOp(Plus, BinOp(Plus, BinOp(Plus, BinOp(Plus, Var, Var), Var), Var), Var);
  }
}
