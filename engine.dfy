/**
 * The evolutionary loop: selection, breeding of the next generation, and the
 * run that repeats it until a stop condition holds.
 *
 * Draws come from the explicit stream of module Rng, fitness from the
 * parameter `fit`, and the stop channel is a script `polls` of what each poll
 * finds. The population is a sequence; the vector the program grows and then
 * drains is a local sequence the methods reassign. Breeding is parameterised
 * by the genetic operators (`Operators`): `AsWritten` holds the program's own
 * `crossover` and `mutate`; `Corrected` holds Individual.CrossoverFixed and
 * Individual.MutateFixed, which keep every generation within max_depth
 * (`KeepsDepth`), where the program's own operators do not.
 */
module Engine {
  import opened Rng
  import opened Tree
  import opened Individual

  /** The parameters of a run. pCopy is carried but never read. */
  datatype Params = Params(
    popSize: int,
    maxDepth: int,
    maxGenerations: int,
    tourneySize: int,
    pCrossover: real,
    pMutate: real,
    pCopy: real)

  /** Every member carries the fitness its tree scores. */
  predicate WellScored(pop: seq<Ind>, fit: Node -> real) {
    forall i :: 0 <= i < |pop| ==> Scored(pop[i], fit)
  }

  /** Every member's tree fits within `maxDepth`. */
  predicate AllWithin(pop: seq<Ind>, maxDepth: int) {
    forall i :: 0 <= i < |pop| ==> Height(pop[i].tree) <= maxDepth
  }

  // ---------------------------------------------------------------------------
  // first_is_better and find_best

  /** Strictly lower fitness wins; on a tie the incumbent stays. */
  predicate FirstIsBetter(a: Ind, b: Ind) {
    a.fitness < b.fitness
  }

  /**
   * The index `find_best` settles on after scanning the first `n` members: the
   * first one of least fitness. With `n <= 1` nothing is scanned and it is 0.
   */
  function BestIndex(pop: seq<Ind>, n: int): (b: int)
    requires 0 < |pop| && n <= |pop|
    ensures 0 <= b < |pop| && (n > 0 ==> b < n)
    ensures forall j :: 0 <= j < n ==> pop[b].fitness <= pop[j].fitness
    ensures forall j :: 0 <= j < b ==> pop[b].fitness < pop[j].fitness
    decreases n
  {
    if n <= 1 then 0
    else
      var b := BestIndex(pop, n - 1);
      if FirstIsBetter(pop[n - 1], pop[b]) then n - 1 else b
  }

  /** `find_best`: scans indices 1 .. pop_size - 1, moving only on a strict improvement. */
  method FindBest(p: Params, pop: seq<Ind>) returns (best: int)
    requires 0 < |pop| && p.popSize <= |pop|
    ensures best == BestIndex(pop, p.popSize)
    ensures 0 <= best < |pop|
    ensures forall j :: 0 <= j < p.popSize ==> pop[best].fitness <= pop[j].fitness
  {
    best := 0;
    var i := 1;
    while i < p.popSize
      invariant 1 <= i && (i <= p.popSize || i == 1)
      invariant best == BestIndex(pop, i)
    {
      if FirstIsBetter(pop[i], pop[best]) {
        best := i;
      }
      i := i + 1;
    }
  }

  // ---------------------------------------------------------------------------
  // tourney_pick

  /** How many indices a tournament draws: the first one, then one per round 1 .. tourney_size - 1. */
  function Rounds(tourneySize: int): (k: nat)
    ensures k >= 1 && k >= tourneySize
  {
    if tourneySize <= 1 then 1 else tourneySize
  }

  /** The first `k` indices drawn from the stream, each reduced into `[0, n)`. */
  function Picks(n: int, k: nat, rng: seq<Draw>): (s: seq<int>)
    requires n > 0
    ensures |s| == k
    ensures forall i :: 0 <= i < k ==> 0 <= s[i] < n
  {
    seq(k, i requires 0 <= i => GenRange(Head(Drop(rng, i)).pick, n))
  }

  /**
   * The contender a tournament keeps, scanning `s` from the left and replacing
   * the incumbent only by a strictly fitter one.
   */
  function Winner(pop: seq<Ind>, s: seq<int>): (w: int)
    requires |s| > 0
    requires forall i :: 0 <= i < |s| ==> 0 <= s[i] < |pop|
    ensures 0 <= w < |pop|
    ensures w in s
    ensures forall i :: 0 <= i < |s| ==> pop[w].fitness <= pop[s[i]].fitness
    decreases |s|
  {
    if |s| == 1 then s[0]
    else
      var w := Winner(pop, s[..|s| - 1]);
      if FirstIsBetter(pop[s[|s| - 1]], pop[w]) then s[|s| - 1] else w
  }

  /**
   * Ties go to the contender drawn first: the winner is drawn in some round k,
   * and every contender drawn before round k is strictly less fit.
   */
  lemma {:induction false} WinnerFirst(pop: seq<Ind>, s: seq<int>)
    requires |s| > 0
    requires forall i :: 0 <= i < |s| ==> 0 <= s[i] < |pop|
    ensures exists k :: 0 <= k < |s| && s[k] == Winner(pop, s) &&
              forall j :: 0 <= j < k ==> pop[s[k]].fitness < pop[s[j]].fitness
    decreases |s|
  {
    if |s| == 1 {
      assert s[0] == Winner(pop, s);
    } else {
      var init := s[..|s| - 1];
      assert forall j :: 0 <= j < |init| ==> init[j] == s[j];
      WinnerFirst(pop, init);
      var w := Winner(pop, init);
      if FirstIsBetter(pop[s[|s| - 1]], pop[w]) {
        var k := |s| - 1;
        assert s[k] == Winner(pop, s);
        assert forall j :: 0 <= j < k ==> pop[s[k]].fitness < pop[s[j]].fitness;
      } else {
        var k :| 0 <= k < |init| && init[k] == w && forall j :: 0 <= j < k ==> pop[init[k]].fitness < pop[init[j]].fitness;
        assert s[k] == Winner(pop, s);
        assert forall j :: 0 <= j < k ==> pop[s[k]].fitness < pop[s[j]].fitness;
      }
    }
  }

  /**
   * A tournament over `pop`: the winner is one of the drawn contenders and no
   * drawn contender is fitter.
   */
  function Tourney(pop: seq<Ind>, tourneySize: int, rng: seq<Draw>): (res: (int, seq<Draw>))
    requires |pop| > 0
    ensures 0 <= res.0 < |pop|
    ensures exists i :: 0 <= i < Rounds(tourneySize) && res.0 == Picks(|pop|, Rounds(tourneySize), rng)[i]
    ensures forall i :: 0 <= i < Rounds(tourneySize) ==>
              pop[res.0].fitness <= pop[GenRange(Head(Drop(rng, i)).pick, |pop|)].fitness
    ensures res.1 == Drop(rng, Rounds(tourneySize))
    ensures |res.1| <= |rng|
  {
    var picks := Picks(|pop|, Rounds(tourneySize), rng);
    var w := Winner(pop, picks);
    assert forall i :: 0 <= i < Rounds(tourneySize) ==> picks[i] == GenRange(Head(Drop(rng, i)).pick, |pop|);
    (w, Drop(rng, Rounds(tourneySize)))
  }

  /** The winner over one more contender: the new one only if it is strictly fitter. */
  lemma WinnerExtends(pop: seq<Ind>, s: seq<int>, k: int)
    requires 0 < k < |s|
    requires forall i :: 0 <= i < |s| ==> 0 <= s[i] < |pop|
    ensures var w := Winner(pop, s[..k]);
            Winner(pop, s[..k + 1]) == if FirstIsBetter(pop[s[k]], pop[w]) then s[k] else w
  {
    assert s[..k + 1][..k] == s[..k];
  }

  /** `tourney_pick`: one draw for the first contender, then one per further round. */
  method TourneyPick(p: Params, pop: seq<Ind>, rng: seq<Draw>) returns (best: int, rest: seq<Draw>)
    requires |pop| > 0
    ensures (best, rest) == Tourney(pop, p.tourneySize, rng)
    ensures 0 <= best < |pop|
  {
    ghost var picks := Picks(|pop|, Rounds(p.tourneySize), rng);
    assert Drop(rng, 0) == rng;
    best := GenRange(Head(rng).pick, |pop|);
    assert picks[..1] == [best];
    rest := Drop(rng, 1);
    var k := 1;
    while k < p.tourneySize
      invariant 1 <= k <= Rounds(p.tourneySize)
      invariant rest == Drop(rng, k)
      invariant best == Winner(pop, picks[..k])
    {
      var index := GenRange(Head(rest).pick, |pop|);
      WinnerExtends(pop, picks, k);
      if FirstIsBetter(pop[index], pop[best]) {
        best := index;
      }
      DropNext(rng, k);
      rest := Drop(rest, 1);
      k := k + 1;
    }
    assert picks[..k] == picks;
  }

  /**
   * A tournament as large as the population need not find its best member:
   * contenders are drawn with replacement, so the same weaker one may be drawn
   * every round.
   */
  lemma TourneyCanMissBest()
    ensures var pop := [Ind(Var, 1.0), Ind(Var, 0.0)];
            var w := Tourney(pop, 2, [Draw(0, 0.0), Draw(0, 0.0)]).0;
            pop[w].fitness > pop[1].fitness
  {
    var pop := [Ind(Var, 1.0), Ind(Var, 0.0)];
    var rng := [Draw(0, 0.0), Draw(0, 0.0)];
    var picks := Picks(2, 2, rng);
    assert picks[0] == 0 && picks[1] == 0;
    assert picks == [0, 0];
    assert Winner(pop, [0]) == 0;
  }

  // ---------------------------------------------------------------------------
  // get_op and finished

  /**
   * `get_op`: 0 (crossover) below p_crossover, 1 (mutate) below
   * p_crossover + p_mutate, 2 (copy) otherwise.
   */
  function GetOp(p: Params, x: real): (op: int)
    ensures 0 <= op <= 2
  {
    if x < p.pCrossover then 0
    else if x < p.pCrossover + p.pMutate then 1
    else 2
  }

  /** The copy probability plays no part in choosing the operator. */
  lemma GetOpIgnoresCopy(p: Params, x: real, pCopy: real)
    ensures GetOp(p, x) == GetOp(p.(pCopy := pCopy), x)
  {
  }

  /** The three outcomes of `get_op` and the bands of the draw that select them. */
  lemma GetOpBands(p: Params, x: real)
    ensures GetOp(p, x) == 0 <==> x < p.pCrossover
    ensures GetOp(p, x) == 1 <==> p.pCrossover <= x < p.pCrossover + p.pMutate
    ensures GetOp(p, x) == 2 <==> p.pCrossover <= x && p.pCrossover + p.pMutate <= x
  {
  }

  /**
   * With a non-negative mutation probability the bands are consecutive: a
   * larger draw never selects an earlier operator.
   */
  lemma GetOpMonotone(p: Params, x: real, y: real)
    requires 0.0 <= p.pMutate && x <= y
    ensures GetOp(p, x) <= GetOp(p, y)
  {
  }

  /**
   * `finished`: the best of the generation scores below 0.01, or a positive
   * generation limit is reached, or the stop channel holds a message.
   */
  predicate Finished(p: Params, gen: int, best: Ind, stopRequested: bool) {
    best.fitness < 0.01 || (p.maxGenerations > 0 && gen >= p.maxGenerations) || stopRequested
  }

  /** A positive generation limit stops the run once it is reached. */
  lemma FinishedAtLimit(p: Params, gen: int, best: Ind, stopRequested: bool)
    requires 0 < p.maxGenerations <= gen
    ensures Finished(p, gen, best, stopRequested)
  {
  }

  /** A generation limit of zero or less means no limit: only fitness or a stop message end the run. */
  lemma NoLimitWhenNotPositive(p: Params, gen: int, best: Ind, stopRequested: bool)
    requires p.maxGenerations <= 0
    ensures Finished(p, gen, best, stopRequested) <==> best.fitness < 0.01 || stopRequested
  {
  }

  /** What poll `g` of the stop channel finds; polls past the end of the script find a message. */
  predicate Pending(polls: seq<bool>, g: int) {
    g < 0 || g >= |polls| || polls[g]
  }

  // ---------------------------------------------------------------------------
  // next_gen

  /**
   * The genetic operators `next_gen` breeds with: `crossover(self, provider,
   * max_depth)` and `mutate(self, max_depth)`, each given the stream and
   * returning the child with the rest of the stream.
   */
  datatype Operators = Operators(
    crossover: (Ind, Ind, int, seq<Draw>) -> (Ind, seq<Draw>),
    mutate: (Ind, int, seq<Draw>) -> (Ind, seq<Draw>))

  /** The program's own operators, which place subtrees with `depth_at_node` as written. */
  function AsWritten(fit: Node -> real): Operators {
    Operators(
      (self: Ind, provider: Ind, maxDepth: int, rng: seq<Draw>) => Crossover(self, provider, maxDepth, rng, fit),
      (self: Ind, maxDepth: int, rng: seq<Draw>) => Mutate(self, maxDepth, rng, fit))
  }

  /** The operators with the corrected depth search. */
  function Corrected(fit: Node -> real): Operators {
    Operators(
      (self: Ind, provider: Ind, maxDepth: int, rng: seq<Draw>) => CrossoverFixed(self, provider, maxDepth, rng, fit),
      (self: Ind, maxDepth: int, rng: seq<Draw>) => MutateFixed(self, maxDepth, rng, fit))
  }

  /** The child `crossover` breeds carries the fitness of its tree. */
  ghost predicate CrossoverScored(ops: Operators, fit: Node -> real, self: Ind, provider: Ind, maxDepth: int, rng: seq<Draw>) {
    Scored(ops.crossover(self, provider, maxDepth, rng).0, fit)
  }

  /** The child `mutate` breeds carries the fitness of its tree. */
  ghost predicate MutantScored(ops: Operators, fit: Node -> real, self: Ind, maxDepth: int, rng: seq<Draw>) {
    Scored(ops.mutate(self, maxDepth, rng).0, fit)
  }

  /** Every child the operators breed carries the fitness of its tree. */
  ghost predicate Scores(ops: Operators, fit: Node -> real) {
    && (forall self, provider, maxDepth, rng :: CrossoverScored(ops, fit, self, provider, maxDepth, rng))
    && (forall self, maxDepth, rng :: MutantScored(ops, fit, self, maxDepth, rng))
  }

  /** If `self` is within max_depth, so is the child `crossover` breeds from it. */
  ghost predicate CrossoverWithin(ops: Operators, self: Ind, provider: Ind, maxDepth: int, rng: seq<Draw>) {
    Height(self.tree) <= maxDepth ==> Height(ops.crossover(self, provider, maxDepth, rng).0.tree) <= maxDepth
  }

  /** If `self` is within max_depth, so is the child `mutate` breeds from it. */
  ghost predicate MutantWithin(ops: Operators, self: Ind, maxDepth: int, rng: seq<Draw>) {
    Height(self.tree) <= maxDepth ==> Height(ops.mutate(self, maxDepth, rng).0.tree) <= maxDepth
  }

  /** Every child bred from a parent within max_depth is within max_depth too. */
  ghost predicate KeepsDepth(ops: Operators) {
    && (forall self, provider, maxDepth, rng :: CrossoverWithin(ops, self, provider, maxDepth, rng))
    && (forall self, maxDepth, rng :: MutantWithin(ops, self, maxDepth, rng))
  }

  /** The program's operators score their children. */
  lemma AsWrittenScores(fit: Node -> real)
    ensures Scores(AsWritten(fit), fit)
  {
    var ops := AsWritten(fit);
    forall self, provider, maxDepth, rng
      ensures CrossoverScored(ops, fit, self, provider, maxDepth, rng)
    {
      assert ops.crossover(self, provider, maxDepth, rng) == Crossover(self, provider, maxDepth, rng, fit);
    }
    forall self, maxDepth, rng
      ensures MutantScored(ops, fit, self, maxDepth, rng)
    {
      assert ops.mutate(self, maxDepth, rng) == Mutate(self, maxDepth, rng, fit);
    }
  }

  /** The corrected operators score their children. */
  lemma CorrectedScores(fit: Node -> real)
    ensures Scores(Corrected(fit), fit)
  {
    var ops := Corrected(fit);
    forall self, provider, maxDepth, rng
      ensures CrossoverScored(ops, fit, self, provider, maxDepth, rng)
    {
      assert ops.crossover(self, provider, maxDepth, rng) == CrossoverFixed(self, provider, maxDepth, rng, fit);
    }
    forall self, maxDepth, rng
      ensures MutantScored(ops, fit, self, maxDepth, rng)
    {
      assert ops.mutate(self, maxDepth, rng) == MutateFixed(self, maxDepth, rng, fit);
    }
  }

  /** The corrected operators keep every child within max_depth. */
  lemma CorrectedKeepsDepth(fit: Node -> real)
    ensures KeepsDepth(Corrected(fit))
  {
    var ops := Corrected(fit);
    forall self, provider, maxDepth, rng
      ensures CrossoverWithin(ops, self, provider, maxDepth, rng)
    {
      if Height(self.tree) <= maxDepth {
        assert ops.crossover(self, provider, maxDepth, rng) == CrossoverFixed(self, provider, maxDepth, rng, fit);
        CrossoverFixedKeepsDepth(self, provider, maxDepth, rng, fit);
      }
    }
    forall self, maxDepth, rng
      ensures MutantWithin(ops, self, maxDepth, rng)
    {
      if Height(self.tree) <= maxDepth {
        assert ops.mutate(self, maxDepth, rng) == MutateFixed(self, maxDepth, rng, fit);
        MutateFixedKeepsDepth(self, maxDepth, rng, fit);
      }
    }
  }

  /** The program's operators do not: a crossover can breed a child deeper than max_depth. */
  lemma AsWrittenExceedsDepth(fit: Node -> real)
    ensures !KeepsDepth(AsWritten(fit))
  {
    var self := Ind(BinOp(Plus, BinOp(Plus, Var, Var), Var), fit(BinOp(Plus, BinOp(Plus, Var, Var), Var)));
    var provider := Ind(BinOp(Minus, Var, Var), fit(BinOp(Minus, Var, Var)));
    var rng := [Draw(0, 0.0), Draw(2, 0.0)];
    CrossoverExceedsMaxDepth(fit);
    assert AsWritten(fit).crossover(self, provider, 2, rng) == Crossover(self, provider, 2, rng, fit);
    assert !CrossoverWithin(AsWritten(fit), self, provider, 2, rng);
  }

  /**
   * One pass of the breeding loop: draw the operator, pick the parents by
   * tournament over the growing pool, and breed one child.
   */
  function Breed(p: Params, ops: Operators, pool: seq<Ind>, rng: seq<Draw>): (res: (Ind, seq<Draw>))
    requires |pool| > 0
    ensures GetOp(p, Head(rng).value) == 2 ==>
              res.0 == pool[Tourney(pool, p.tourneySize, Drop(rng, 1)).0]
  {
    var op := GetOp(p, Head(rng).value);
    var (i, r1) := Tourney(pool, p.tourneySize, Drop(rng, 1));
    if op == 0 then
      var (j, r2) := Tourney(pool, p.tourneySize, r1);
      ops.crossover(pool[i], pool[j], p.maxDepth, r2)
    else if op == 1 then
      ops.mutate(pool[i], p.maxDepth, r1)
    else
      (Copy(pool[i]), r1)
  }

  /** A child bred from a well-scored pool carries the fitness of its tree. */
  lemma BreedScored(p: Params, ops: Operators, pool: seq<Ind>, rng: seq<Draw>, fit: Node -> real)
    requires Scores(ops, fit)
    requires |pool| > 0 && WellScored(pool, fit)
    ensures Scored(Breed(p, ops, pool, rng).0, fit)
  {
    var op := GetOp(p, Head(rng).value);
    var (i, r1) := Tourney(pool, p.tourneySize, Drop(rng, 1));
    if op == 0 {
      var (j, r2) := Tourney(pool, p.tourneySize, r1);
      assert CrossoverScored(ops, fit, pool[i], pool[j], p.maxDepth, r2);
    } else if op == 1 {
      assert MutantScored(ops, fit, pool[i], p.maxDepth, r1);
    } else {
      assert Scored(pool[i], fit);
    }
  }

  /** A child bred from a pool within max_depth is within it too, if the operators keep depth. */
  lemma BreedWithin(p: Params, ops: Operators, pool: seq<Ind>, rng: seq<Draw>)
    requires KeepsDepth(ops)
    requires |pool| > 0 && AllWithin(pool, p.maxDepth)
    ensures Height(Breed(p, ops, pool, rng).0.tree) <= p.maxDepth
  {
    var op := GetOp(p, Head(rng).value);
    var (i, r1) := Tourney(pool, p.tourneySize, Drop(rng, 1));
    assert Height(pool[i].tree) <= p.maxDepth;
    if op == 0 {
      var (j, r2) := Tourney(pool, p.tourneySize, r1);
      assert CrossoverWithin(ops, pool[i], pool[j], p.maxDepth, r2);
    } else if op == 1 {
      assert MutantWithin(ops, pool[i], p.maxDepth, r1);
    }
  }

  /** The breeding loop: children are appended until the pool holds 2 * pop_size members. */
  function Grow(p: Params, ops: Operators, pool: seq<Ind>, rng: seq<Draw>): (res: (seq<Ind>, seq<Draw>))
    requires |pool| > 0
    ensures |res.0| == if |pool| < 2 * p.popSize then 2 * p.popSize else |pool|
    ensures res.0[..|pool|] == pool
    decreases 2 * p.popSize - |pool|
  {
    if |pool| >= 2 * p.popSize then (pool, rng)
    else
      var (child, rest) := Breed(p, ops, pool, rng);
      var res := Grow(p, ops, pool + [child], rest);
      PrefixOfAppend(pool, child, res.0);
      res
  }

  /** A sequence that starts with `pool + [x]` starts with `pool`. */
  lemma PrefixOfAppend<T>(pool: seq<T>, x: T, s: seq<T>)
    requires |pool| + 1 <= |s| && s[..|pool| + 1] == pool + [x]
    ensures s[..|pool|] == pool
  {
    assert s[..|pool|] == s[..|pool| + 1][..|pool|];
  }

  /** Growing a well-scored pool keeps it well scored. */
  lemma {:induction false} GrowWellScored(p: Params, ops: Operators, pool: seq<Ind>, rng: seq<Draw>, fit: Node -> real)
    requires Scores(ops, fit)
    requires |pool| > 0 && WellScored(pool, fit)
    ensures WellScored(Grow(p, ops, pool, rng).0, fit)
    decreases 2 * p.popSize - |pool|
  {
    if |pool| < 2 * p.popSize {
      var (child, rest) := Breed(p, ops, pool, rng);
      BreedScored(p, ops, pool, rng, fit);
      GrowWellScored(p, ops, pool + [child], rest, fit);
    }
  }

  /** Growing a pool within max_depth keeps it within max_depth, if the operators keep depth. */
  lemma {:induction false} GrowWithin(p: Params, ops: Operators, pool: seq<Ind>, rng: seq<Draw>)
    requires KeepsDepth(ops)
    requires |pool| > 0 && AllWithin(pool, p.maxDepth)
    ensures AllWithin(Grow(p, ops, pool, rng).0, p.maxDepth)
    decreases 2 * p.popSize - |pool|
  {
    if |pool| < 2 * p.popSize {
      var (child, rest) := Breed(p, ops, pool, rng);
      BreedWithin(p, ops, pool, rng);
      GrowWithin(p, ops, pool + [child], rest);
    }
  }

  /**
   * `next_gen`: a copy of the best member is appended, the pool is grown to
   * 2 * pop_size, and the first pop_size members are drained, so the copy of
   * the best leads the new generation.
   */
  function NextGeneration(p: Params, ops: Operators, pop: seq<Ind>, rng: seq<Draw>): (res: (seq<Ind>, seq<Draw>))
    requires 0 < p.popSize == |pop|
    ensures |res.0| == p.popSize
    ensures res.0[0] == pop[BestIndex(pop, p.popSize)]
  {
    var elite := Copy(pop[BestIndex(pop, p.popSize)]);
    var (grown, rest) := Grow(p, ops, pop + [elite], rng);
    assert grown[p.popSize] == grown[..p.popSize + 1][p.popSize];
    (grown[p.popSize..], rest)
  }

  /** The best fitness of a generation is never worse than that of the one before it. */
  lemma NextGenerationKeepsBest(p: Params, ops: Operators, pop: seq<Ind>, rng: seq<Draw>)
    requires 0 < p.popSize == |pop|
    ensures var next := NextGeneration(p, ops, pop, rng).0;
            next[BestIndex(next, p.popSize)].fitness <= pop[BestIndex(pop, p.popSize)].fitness
  {
  }

  /** A well-scored generation breeds a well-scored one. */
  lemma NextGenerationWellScored(p: Params, ops: Operators, pop: seq<Ind>, rng: seq<Draw>, fit: Node -> real)
    requires Scores(ops, fit)
    requires 0 < p.popSize == |pop| && WellScored(pop, fit)
    ensures WellScored(NextGeneration(p, ops, pop, rng).0, fit)
  {
    var elite := Copy(pop[BestIndex(pop, p.popSize)]);
    GrowWellScored(p, ops, pop + [elite], rng, fit);
  }

  /** A generation within max_depth breeds one within max_depth, if the operators keep depth. */
  lemma NextGenerationWithin(p: Params, ops: Operators, pop: seq<Ind>, rng: seq<Draw>)
    requires KeepsDepth(ops)
    requires 0 < p.popSize == |pop| && AllWithin(pop, p.maxDepth)
    ensures AllWithin(NextGeneration(p, ops, pop, rng).0, p.maxDepth)
  {
    var elite := Copy(pop[BestIndex(pop, p.popSize)]);
    GrowWithin(p, ops, pop + [elite], rng);
  }

  /** `next_gen`, on a vector it grows and drains. */
  method NextGen(p: Params, ops: Operators, pop: seq<Ind>, rng: seq<Draw>) returns (next: seq<Ind>, rest: seq<Draw>)
    requires 0 < p.popSize == |pop|
    ensures (next, rest) == NextGeneration(p, ops, pop, rng)
    ensures |next| == p.popSize && next[0] == pop[BestIndex(pop, p.popSize)]
  {
    var bestIndex := FindBest(p, pop);
    var current := pop + [Copy(pop[bestIndex])];
    rest := rng;
    while |current| < 2 * p.popSize
      invariant |current| > 0
      invariant Grow(p, ops, current, rest) == Grow(p, ops, pop + [Copy(pop[bestIndex])], rng)
      decreases 2 * p.popSize - |current|
    {
      ghost var before := rest;
      var op := GetOp(p, Head(rest).value);
      rest := Drop(rest, 1);
      var child: Ind;
      if op == 0 {
        var ind1, ind2;
        ind1, rest := TourneyPick(p, current, rest);
        ind2, rest := TourneyPick(p, current, rest);
        var bred := ops.crossover(current[ind1], current[ind2], p.maxDepth, rest);
        child, rest := bred.0, bred.1;
      } else if op == 1 {
        var ind;
        ind, rest := TourneyPick(p, current, rest);
        var bred := ops.mutate(current[ind], p.maxDepth, rest);
        child, rest := bred.0, bred.1;
      } else {
        var ind;
        ind, rest := TourneyPick(p, current, rest);
        child := Copy(current[ind]);
      }
      assert Breed(p, ops, current, before) == (child, rest);
      current := current + [child];
    }
    next := current[p.popSize..];
  }

  // ---------------------------------------------------------------------------
  // init_pop and run_gp

  /** The first `n` individuals `init_pop` generates, and the stream after them. */
  function Spawn(maxDepth: int, n: int, rng: seq<Draw>, fit: Node -> real): (res: (seq<Ind>, seq<Draw>))
    ensures |res.0| == if n < 0 then 0 else n
    ensures WellScored(res.0, fit)
    ensures maxDepth >= 0 ==> AllWithin(res.0, maxDepth)
    decreases n
  {
    if n <= 0 then ([], rng)
    else
      var (pop, r) := Spawn(maxDepth, n - 1, rng, fit);
      var (ind, rest) := RandomInd(maxDepth, r, fit);
      (pop + [ind], rest)
  }

  /** `init_pop`: pop_size calls of `random_ind(max_depth)`. */
  method InitPop(p: Params, rng: seq<Draw>, fit: Node -> real) returns (pop: seq<Ind>, rest: seq<Draw>)
    ensures (pop, rest) == Spawn(p.maxDepth, p.popSize, rng, fit)
    ensures |pop| == if p.popSize < 0 then 0 else p.popSize
    ensures WellScored(pop, fit)
    ensures p.maxDepth >= 0 ==> AllWithin(pop, p.maxDepth)
  {
    pop, rest := [], rng;
    var i := 0;
    while i < p.popSize
      invariant 0 <= i && (i <= p.popSize || i == 0)
      invariant (pop, rest) == Spawn(p.maxDepth, i, rng, fit)
    {
      var made := RandomInd(p.maxDepth, rest, fit);
      pop, rest := pop + [made.0], made.1;
      i := i + 1;
    }
  }

  /** The member `find_best` picks in a generation. */
  function BestOf(p: Params, pop: seq<Ind>): (best: Ind)
    requires 0 < |pop| && p.popSize <= |pop|
    ensures forall j :: 0 <= j < p.popSize ==> best.fitness <= pop[j].fitness
  {
    pop[BestIndex(pop, p.popSize)]
  }

  /** `k` steps of `next` from `s`. */
  function Iterate<S>(next: S -> S, s: S, k: nat): S
    decreases k
  {
    if k == 0 then s else Iterate(next, next(s), k - 1)
  }

  /** A step that keeps `inv` and never raises `rank` does neither over `k` steps. */
  lemma {:induction false} IterateDescends<S>(next: S -> S, inv: S -> bool, rank: S -> real, s: S, k: nat)
    requires inv(s)
    requires forall t :: inv(t) ==> inv(next(t)) && rank(next(t)) <= rank(t)
    ensures inv(Iterate(next, s, k)) && rank(Iterate(next, s, k)) <= rank(s)
    decreases k
  {
    if k > 0 {
      IterateDescends(next, inv, rank, next(s), k - 1);
    }
  }

  /** A step that keeps `inv` keeps it over `k` steps. */
  lemma {:induction false} IterateKeeps<S>(next: S -> S, inv: S -> bool, s: S, k: nat)
    requires inv(s)
    requires forall t :: inv(t) ==> inv(next(t))
    ensures inv(Iterate(next, s, k))
    decreases k
  {
    if k > 0 {
      IterateKeeps(next, inv, next(s), k - 1);
    }
  }

  /**
   * A loop that checks `stop` before every step: from check `gen` on, step
   * with `next` until `stop` holds or check `bound` is reached. The result is
   * the check that ended the loop and the state it saw.
   */
  function RunUntil<S>(next: S -> S, stop: (int, S) -> bool, s: S, gen: nat, bound: nat): (r: (nat, S))
    ensures gen <= r.0 && (gen <= bound ==> r.0 <= bound)
    ensures r.0 >= bound || stop(r.0, r.1)
    decreases bound - gen
  {
    if gen >= bound || stop(gen, s) then (gen, s)
    else RunUntil(next, stop, next(s), gen + 1, bound)
  }

  /** A check that does not stop the loop hands it on to the next state. */
  lemma RunUntilStep<S>(next: S -> S, stop: (int, S) -> bool, s: S, gen: nat, bound: nat)
    requires gen < bound && !stop(gen, s)
    ensures RunUntil(next, stop, s, gen, bound) == RunUntil(next, stop, next(s), gen + 1, bound)
  {
  }

  /** A check that stops the loop ends it there. */
  lemma RunUntilDone<S>(next: S -> S, stop: (int, S) -> bool, s: S, gen: nat, bound: nat)
    requires stop(gen, s)
    ensures RunUntil(next, stop, s, gen, bound) == (gen, s)
  {
  }

  /** A step that keeps `inv` keeps it in the state the loop ends in. */
  lemma {:induction false} RunUntilKeeps<S>(next: S -> S, stop: (int, S) -> bool, inv: S -> bool, s: S, gen: nat, bound: nat)
    requires inv(s)
    requires forall t :: inv(t) ==> inv(next(t))
    ensures inv(RunUntil(next, stop, s, gen, bound).1)
    decreases bound - gen
  {
    if !(gen >= bound || stop(gen, s)) {
      RunUntilKeeps(next, stop, inv, next(s), gen + 1, bound);
    }
  }

  /** The loop ends in the state `next` reaches in as many steps as the loop ran. */
  lemma {:induction false} RunUntilLast<S>(next: S -> S, stop: (int, S) -> bool, s: S, gen: nat, bound: nat)
    ensures var r := RunUntil(next, stop, s, gen, bound);
            r.1 == Iterate(next, s, r.0 - gen)
    decreases bound - gen
  {
    if !(gen >= bound || stop(gen, s)) {
      RunUntilLast(next, stop, next(s), gen + 1, bound);
      var r := RunUntil(next, stop, s, gen, bound);
      assert r == RunUntil(next, stop, next(s), gen + 1, bound);
      assert Iterate(next, s, r.0 - gen) == Iterate(next, next(s), r.0 - (gen + 1));
    }
  }

  /** Every check before the one that ended the loop saw a state where `stop` fails. */
  lemma {:induction false} RunUntilChecked<S>(next: S -> S, stop: (int, S) -> bool, s: S, gen: nat, bound: nat, k: nat)
    requires gen + k < RunUntil(next, stop, s, gen, bound).0
    ensures gen + k < bound && !stop(gen + k, Iterate(next, s, k))
    decreases k
  {
    if k > 0 {
      assert RunUntil(next, stop, s, gen, bound) == RunUntil(next, stop, next(s), gen + 1, bound);
      RunUntilChecked(next, stop, next(s), gen + 1, bound, k - 1);
      assert gen + 1 + (k - 1) == gen + k;
      assert Iterate(next, s, k) == Iterate(next, next(s), k - 1);
    }
  }

  /**
   * `next_gen` as the step of the run. A run only ever holds generations of
   * pop_size members (`EvolveSize`); any other state is left as it is.
   */
  function Step(p: Params, ops: Operators): ((seq<Ind>, seq<Draw>)) -> (seq<Ind>, seq<Draw>)
  {
    (st: (seq<Ind>, seq<Draw>)) =>
      if 0 < p.popSize == |st.0| then NextGeneration(p, ops, st.0, st.1) else st
  }

  /**
   * `finished` as the check of the run: check `g` sees the best of the
   * generation it is given and what poll `g` finds. A run only ever checks
   * generations of pop_size members; any other state stops it.
   */
  function StopAt(p: Params, polls: seq<bool>): (int, (seq<Ind>, seq<Draw>)) -> bool
  {
    (g: int, st: (seq<Ind>, seq<Draw>)) => Stops(p, polls, g, st.0)
  }

  /** Check `g` on generation `pop`. */
  predicate Stops(p: Params, polls: seq<bool>, g: int, pop: seq<Ind>) {
    if 0 < p.popSize == |pop| then Finished(p, g, BestOf(p, pop), Pending(polls, g)) else true
  }

  /** A generation of pop_size members. */
  function Sized(p: Params): ((seq<Ind>, seq<Draw>)) -> bool {
    (st: (seq<Ind>, seq<Draw>)) => 0 < p.popSize == |st.0|
  }

  /** `next_gen` breeds a generation of pop_size members from one. */
  lemma StepKeepsSize(p: Params, ops: Operators)
    ensures forall st :: Sized(p)(st) ==> Sized(p)(Step(p, ops)(st))
  {
    forall st | Sized(p)(st)
      ensures Sized(p)(Step(p, ops)(st))
    {
      assert Step(p, ops)(st) == NextGeneration(p, ops, st.0, st.1);
    }
  }

  /** On a generation of pop_size members, the check is `finished` on its best. */
  lemma StopAtFinished(p: Params, polls: seq<bool>, g: int, st: (seq<Ind>, seq<Draw>))
    requires 0 < p.popSize == |st.0|
    ensures StopAt(p, polls)(g, st) == Finished(p, g, st.0[BestIndex(st.0, p.popSize)], Pending(polls, g))
  {
    assert BestOf(p, st.0) == st.0[BestIndex(st.0, p.popSize)];
  }

  /** On a generation of pop_size members, the step is `next_gen`. */
  lemma StepIsNextGeneration(p: Params, ops: Operators, st: (seq<Ind>, seq<Draw>))
    requires 0 < p.popSize == |st.0|
    ensures Step(p, ops)(st) == NextGeneration(p, ops, st.0, st.1)
  {
  }

  /** `k` generations after a generation of pop_size members keep pop_size members. */
  lemma EvolveSize(p: Params, ops: Operators, st: (seq<Ind>, seq<Draw>), k: nat)
    requires 0 < p.popSize == |st.0|
    ensures |Iterate(Step(p, ops), st, k).0| == p.popSize
  {
    StepKeepsSize(p, ops);
    IterateKeeps(Step(p, ops), Sized(p), st, k);
  }

  /** The generation `k` calls of `next_gen` breed from `st`, and the stream after them. */
  function Evolve(p: Params, ops: Operators, st: (seq<Ind>, seq<Draw>), k: nat): (res: (seq<Ind>, seq<Draw>))
    requires 0 < p.popSize == |st.0|
    ensures |res.0| == p.popSize
  {
    EvolveSize(p, ops, st, k);
    Iterate(Step(p, ops), st, k)
  }

  /** Over any number of generations the best fitness never gets worse. */
  lemma EvolveKeepsBest(p: Params, ops: Operators, st: (seq<Ind>, seq<Draw>), k: nat)
    requires 0 < p.popSize == |st.0|
    ensures BestOf(p, Evolve(p, ops, st, k).0).fitness <= BestOf(p, st.0).fitness
  {
    var sized := (t: (seq<Ind>, seq<Draw>)) => 0 < p.popSize == |t.0|;
    var rank := (t: (seq<Ind>, seq<Draw>)) => if 0 < p.popSize == |t.0| then BestOf(p, t.0).fitness else 0.0;
    forall t | sized(t)
      ensures sized(Step(p, ops)(t)) && rank(Step(p, ops)(t)) <= rank(t)
    {
      NextGenerationKeepsBest(p, ops, t.0, t.1);
    }
    IterateDescends(Step(p, ops), sized, rank, st, k);
  }

  /** Operators that score their children keep every generation well scored. */
  lemma EvolveWellScored(p: Params, ops: Operators, fit: Node -> real, st: (seq<Ind>, seq<Draw>), k: nat)
    requires Scores(ops, fit)
    requires 0 < p.popSize == |st.0| && WellScored(st.0, fit)
    ensures WellScored(Evolve(p, ops, st, k).0, fit)
  {
    var good := (t: (seq<Ind>, seq<Draw>)) => 0 < p.popSize == |t.0| && WellScored(t.0, fit);
    forall t | good(t)
      ensures good(Step(p, ops)(t))
    {
      NextGenerationWellScored(p, ops, t.0, t.1, fit);
    }
    IterateKeeps(Step(p, ops), good, st, k);
  }

  /** Operators that keep depth keep every generation within max_depth. */
  lemma EvolveWithin(p: Params, ops: Operators, st: (seq<Ind>, seq<Draw>), k: nat)
    requires KeepsDepth(ops)
    requires 0 < p.popSize == |st.0| && AllWithin(st.0, p.maxDepth)
    ensures AllWithin(Evolve(p, ops, st, k).0, p.maxDepth)
  {
    var within := (t: (seq<Ind>, seq<Draw>)) => 0 < p.popSize == |t.0| && AllWithin(t.0, p.maxDepth);
    forall t | within(t)
      ensures within(Step(p, ops)(t))
    {
      NextGenerationWithin(p, ops, t.0, t.1);
    }
    IterateKeeps(Step(p, ops), within, st, k);
  }

  /**
   * The run of `run_gp` from generation `st`: the check that stopped it and
   * the generation that check saw, with the rest of the stream.
   */
  function RunFrom(p: Params, ops: Operators, polls: seq<bool>, st: (seq<Ind>, seq<Draw>)): (r: (nat, (seq<Ind>, seq<Draw>)))
    requires 0 < p.popSize == |st.0|
    ensures r.0 <= |polls| && |r.1.0| == p.popSize
  {
    StepKeepsSize(p, ops);
    RunUntilKeeps(Step(p, ops), StopAt(p, polls), Sized(p), st, 0, |polls|);
    RunUntil(Step(p, ops), StopAt(p, polls), st, 0, |polls|)
  }

  /**
   * A run stops at the generation `Evolve` reaches after as many steps as it
   * ran, the check there finished, and its best is no worse than the best it
   * started from.
   */
  lemma RunFromEnd(p: Params, ops: Operators, polls: seq<bool>, st: (seq<Ind>, seq<Draw>))
    requires 0 < p.popSize == |st.0|
    ensures var r := RunFrom(p, ops, polls, st);
            && r.1 == Evolve(p, ops, st, r.0)
            && Finished(p, r.0, BestOf(p, r.1.0), Pending(polls, r.0))
            && BestOf(p, r.1.0).fitness <= BestOf(p, st.0).fitness
  {
    var r := RunFrom(p, ops, polls, st);
    RunUntilLast(Step(p, ops), StopAt(p, polls), st, 0, |polls|);
    EvolveKeepsBest(p, ops, st, r.0);
  }

  /** Check `g` of a run that went past it saw a generation whose best did not finish it. */
  lemma RunFromCheck(p: Params, ops: Operators, polls: seq<bool>, st: (seq<Ind>, seq<Draw>), g: nat)
    requires 0 < p.popSize == |st.0|
    requires g < RunFrom(p, ops, polls, st).0
    ensures !Finished(p, g, BestOf(p, Evolve(p, ops, st, g).0), Pending(polls, g))
  {
    RunFromPassed(p, ops, polls, st, g);
  }

  /** Check `g` of a run that went past it did not stop the run. */
  lemma RunFromPassed(p: Params, ops: Operators, polls: seq<bool>, st: (seq<Ind>, seq<Draw>), g: nat)
    requires 0 < p.popSize == |st.0|
    requires g < RunFrom(p, ops, polls, st).0
    ensures !Stops(p, polls, g, Evolve(p, ops, st, g).0)
  {
    RunUntilChecked(Step(p, ops), StopAt(p, polls), st, 0, |polls|, g);
    assert 0 + g == g;
  }

  /** No check before the one that stopped a run saw a fit enough best, reached the generation limit or found a message. */
  lemma RunFromChecks(p: Params, ops: Operators, polls: seq<bool>, st: (seq<Ind>, seq<Draw>))
    requires 0 < p.popSize == |st.0|
    ensures var r := RunFrom(p, ops, polls, st);
            forall g: nat :: g < r.0 ==>
              !Finished(p, g, BestOf(p, Evolve(p, ops, st, g).0), Pending(polls, g))
  {
    forall g: nat | g < RunFrom(p, ops, polls, st).0
      ensures !Finished(p, g, BestOf(p, Evolve(p, ops, st, g).0), Pending(polls, g))
    {
      RunFromCheck(p, ops, polls, st, g);
    }
  }

  /** So no poll before the last one found a message, and a positive generation limit bounds the run. */
  lemma RunFromPolls(p: Params, ops: Operators, polls: seq<bool>, st: (seq<Ind>, seq<Draw>))
    requires 0 < p.popSize == |st.0|
    ensures var r := RunFrom(p, ops, polls, st);
            && (forall g :: 0 <= g < r.0 ==> !polls[g])
            && (p.maxGenerations > 0 ==> r.0 <= p.maxGenerations)
  {
    var r := RunFrom(p, ops, polls, st);
    forall g: nat | g < r.0
      ensures !polls[g]
    {
      RunFromCheck(p, ops, polls, st, g);
    }
    if p.maxGenerations > 0 && r.0 > 0 {
      RunFromCheck(p, ops, polls, st, r.0 - 1);
    }
  }

  /**
   * `run_gp`: from the initial population, one `next_gen` per iteration until
   * `finished` holds, polling the stop channel once per check. The run returns
   * the `find_best` member of the last generation: no check before the last
   * one finished, and the last one did.
   */
  method RunGp(p: Params, ops: Operators, polls: seq<bool>, rng: seq<Draw>, fit: Node -> real)
    returns (best: Ind, ghost gens: nat, ghost last: seq<Ind>)
    requires p.popSize > 0
    ensures var r := RunFrom(p, ops, polls, Spawn(p.maxDepth, p.popSize, rng, fit));
            gens == r.0 && last == r.1.0 && best == BestOf(p, last)
    ensures gens <= |polls|
    ensures last == Evolve(p, ops, Spawn(p.maxDepth, p.popSize, rng, fit), gens).0
    ensures Finished(p, gens, best, Pending(polls, gens))
    ensures forall g: nat :: g < gens ==>
              !Finished(p, g, BestOf(p, Evolve(p, ops, Spawn(p.maxDepth, p.popSize, rng, fit), g).0), Pending(polls, g))
    ensures forall g :: 0 <= g < gens ==> !polls[g]
    ensures p.maxGenerations > 0 ==> gens <= p.maxGenerations
    ensures Scores(ops, fit) ==> Scored(best, fit)
    ensures KeepsDepth(ops) && p.maxDepth >= 0 ==> Height(best.tree) <= p.maxDepth
    ensures forall j :: 0 <= j < p.popSize ==> best.fitness <= Spawn(p.maxDepth, p.popSize, rng, fit).0[j].fitness
  {
    var gen: nat := 0;
    var current, rest := InitPop(p, rng, fit);
    ghost var first, stream := current, rest;
    var bestIndex := FindBest(p, current);
    while !Finished(p, gen, current[bestIndex], Pending(polls, gen))
      invariant gen <= |polls| && |current| == p.popSize
      invariant bestIndex == BestIndex(current, p.popSize)
      invariant RunUntil(Step(p, ops), StopAt(p, polls), (current, rest), gen, |polls|)
                == RunFrom(p, ops, polls, (first, stream))
      decreases |polls| - gen
    {
      StopAtFinished(p, polls, gen, (current, rest));
      RunUntilStep(Step(p, ops), StopAt(p, polls), (current, rest), gen, |polls|);
      StepIsNextGeneration(p, ops, (current, rest));
      current, rest := NextGen(p, ops, current, rest);
      gen := gen + 1;
      bestIndex := FindBest(p, current);
    }
    StopAtFinished(p, polls, gen, (current, rest));
    RunUntilDone(Step(p, ops), StopAt(p, polls), (current, rest), gen, |polls|);
    best, gens, last := current[bestIndex], gen, current;
    RunFromEnd(p, ops, polls, (first, stream));
    RunFromChecks(p, ops, polls, (first, stream));
    RunFromPolls(p, ops, polls, (first, stream));
    if Scores(ops, fit) {
      EvolveWellScored(p, ops, fit, (first, stream), gens);
    }
    if KeepsDepth(ops) && p.maxDepth >= 0 {
      EvolveWithin(p, ops, (first, stream), gens);
    }
  }

}
