/**
 * The expression-tree genome and its structural operations.
 *
 * Every node has a pre-order index: the root is 0, then come all nodes of the
 * left subtree, then all nodes of the right subtree. `GetNode`, `ReplaceNode`
 * and `DepthAtNode` follow the program's own way of finding a node: each call
 * returns the part of the index it has not consumed, and an operator hands the
 * left subtree's remainder, minus one, to its right subtree. `Subtree`,
 * `Put`, `NodeDepth` and `ReportedDepth` are independent reference
 * definitions by index arithmetic on `Count`, `Labels` flattens a tree, and the lemmas below connect the
 * two views.
 */
module Tree {
  import opened Rng

  datatype Operator = Plus | Minus | Mult | Div

  datatype Node =
    | Constant(value: real)
    | Var
    | BinOp(op: Operator, lhs: Node, rhs: Node)
  {
    predicate IsLeaf() {
      !BinOp?
    }
  }

  /** The information a single node carries, without its children. */
  datatype Label = ConstantLabel(value: real) | VarLabel | OpLabel(op: Operator)

  function LabelOf(t: Node): Label {
    match t
    case Constant(c) => ConstantLabel(c)
    case Var => VarLabel
    case BinOp(op, _, _) => OpLabel(op)
  }

  function Max(a: int, b: int): int {
    if a < b then b else a
  }

  /** Number of nodes. */
  function Count(t: Node): (n: int)
    ensures n >= 1
  {
    match t
    case BinOp(_, l, r) => 1 + Count(l) + Count(r)
    case _ => 1
  }

  /** Number of edges on the longest root-to-leaf path (a leaf has height 0). */
  function Height(t: Node): nat {
    match t
    case BinOp(_, l, r) => 1 + Max(Height(l), Height(r))
    case _ => 0
  }

  /** The labels of the nodes of `t` in pre-order; they determine `t` completely. */
  function Labels(t: Node): (s: seq<Label>)
    ensures |s| == Count(t)
  {
    match t
    case BinOp(_, l, r) => [LabelOf(t)] + Labels(l) + Labels(r)
    case _ => [LabelOf(t)]
  }

  // ---------------------------------------------------------------------------
  // get_node

  /**
   * `get_node(i, (_, dflt))`: the node at pre-order index i, threaded as the
   * program does. The first component is the index the walk has not consumed;
   * `dflt` is handed back when the index is not found in `t`.
   */
  function GetNode(t: Node, i: int, dflt: Node): (int, Node) {
    if i == 0 then (0, t)
    else
      match t
      case BinOp(_, l, r) =>
        var res := GetNode(l, i - 1, dflt);
        GetNode(r, res.0 - 1, res.1)
      case _ => (i, dflt)
  }

  /** An index outside [0, Count(t)) is not found: the default comes back, and Count(t) - 1 of the index is consumed. */
  lemma {:induction false} GetNodeMissing(t: Node, i: int, dflt: Node)
    requires i < 0 || Count(t) <= i
    ensures GetNode(t, i, dflt) == (i - Count(t) + 1, dflt)
  {
    match t
    case BinOp(_, l, r) =>
      GetNodeMissing(l, i - 1, dflt);
      GetNodeMissing(r, i - Count(l) - 1, dflt);
    case _ =>
  }

  /** Reference lookup: the subtree rooted at pre-order index i, found by index arithmetic on `Count`. */
  function Subtree(t: Node, i: int): (s: Node)
    requires 0 <= i < Count(t)
    ensures i + Count(s) <= Count(t)
  {
    if i == 0 then t
    else if i - 1 < Count(t.lhs) then Subtree(t.lhs, i - 1)
    else Subtree(t.rhs, i - 1 - Count(t.lhs))
  }

  /** An index inside [0, Count(t)) is found: the whole index is consumed and the result is the subtree at i. */
  lemma {:induction false} GetNodeFound(t: Node, i: int, dflt: Node)
    requires 0 <= i < Count(t)
    ensures GetNode(t, i, dflt).0 <= 0
    ensures GetNode(t, i, dflt).1 == Subtree(t, i)
  {
    match t
    case BinOp(_, l, r) =>
      if i > 0 {
        var res := GetNode(l, i - 1, dflt);
        if i - 1 < Count(l) {
          GetNodeFound(l, i - 1, dflt);
          GetNodeMissing(r, res.0 - 1, res.1);
        } else {
          GetNodeMissing(l, i - 1, dflt);
          GetNodeFound(r, i - 1 - Count(l), dflt);
        }
      }
    case _ =>
  }

  /** The subtree at index i occupies the pre-order positions [i, SubtreeEnd(t, i)). */
  function SubtreeEnd(t: Node, i: int): (e: int)
    requires 0 <= i < Count(t)
    ensures i < e <= Count(t)
  {
    i + Count(Subtree(t, i))
  }

  /**
   * `u` is `t` with the subtree at pre-order index i replaced by `x`: `x` sits at
   * index i of `u`, and the labels of `u` are those of `t` with the labels of the
   * old subtree swapped for those of `x`.
   */
  predicate ReplacedAt(t: Node, i: int, x: Node, u: Node)
    requires 0 <= i < Count(t)
  {
    && i < Count(u)
    && Subtree(u, i) == x
    && Labels(u) == Labels(t)[..i] + Labels(x) + Labels(t)[SubtreeEnd(t, i)..]
  }

  // ---------------------------------------------------------------------------
  // replace_node

  /** `replace_node(i, x)`: the index threading of `GetNode`, rebuilding every operator on the way. */
  function ReplaceNode(t: Node, i: int, x: Node): (int, Node) {
    if i == 0 then (0, x)
    else
      match t
      case BinOp(op, l, r) =>
        var res := ReplaceNode(l, i - 1, x);
        var res2 := ReplaceNode(r, res.0 - 1, x);
        (res2.0, BinOp(op, res.1, res2.1))
      case _ => (i, t)
  }

  /** Out of range, the tree comes back structurally equal. */
  lemma {:induction false} ReplaceNodeMissing(t: Node, i: int, x: Node)
    requires i < 0 || Count(t) <= i
    ensures ReplaceNode(t, i, x) == (i - Count(t) + 1, t)
  {
    match t
    case BinOp(_, l, r) =>
      ReplaceNodeMissing(l, i - 1, x);
      ReplaceNodeMissing(r, i - Count(l) - 1, x);
    case _ =>
  }

  /** `ReplaceNode` consumes the index exactly as `GetNode` does. */
  lemma {:induction false} ReplaceNodeThreadsLikeGetNode(t: Node, i: int, x: Node, dflt: Node)
    ensures ReplaceNode(t, i, x).0 == GetNode(t, i, dflt).0
  {
    if i != 0 && t.BinOp? {
      var l, r := t.lhs, t.rhs;
      ReplaceNodeThreadsLikeGetNode(l, i - 1, x, dflt);
      var res := GetNode(l, i - 1, dflt);
      ReplaceNodeThreadsLikeGetNode(r, res.0 - 1, x, res.1);
    }
  }

  lemma LabelsStep(u: Node)
    requires u.BinOp?
    ensures Labels(u) == [OpLabel(u.op)] + Labels(u.lhs) + Labels(u.rhs)
  {
  }

  /** Splicing inside the b part of a sequence of the shape [a] + b + c. */
  lemma SpliceLeft<T>(a: T, b: seq<T>, c: seq<T>, m: seq<T>, k: int, e: int, whole: seq<T>, spliced: seq<T>, start: int, end: int)
    requires 0 <= k <= e <= |b| && start == k + 1 && end == e + 1
    requires whole == [a] + b + c
    requires spliced == [a] + (b[..k] + m + b[e..]) + c
    ensures spliced == whole[..start] + m + whole[end..]
  {
    assert whole[..start] == [a] + b[..k];
    assert whole[end..] == b[e..] + c;
  }

  /** Splicing inside the c part of a sequence of the shape [a] + b + c. */
  lemma SpliceRight<T>(a: T, b: seq<T>, c: seq<T>, m: seq<T>, k: int, e: int, whole: seq<T>, spliced: seq<T>, start: int, end: int)
    requires 0 <= k <= e <= |c| && start == 1 + |b| + k && end == 1 + |b| + e
    requires whole == [a] + b + c
    requires spliced == [a] + b + (c[..k] + m + c[e..])
    ensures spliced == whole[..start] + m + whole[end..]
  {
    assert whole[..start] == [a] + b + c[..k];
    assert whole[end..] == c[e..];
  }

  /** Reference replacement: descend by index arithmetic on `Count` and swap in `x`. */
  function Put(t: Node, i: int, x: Node): Node
    requires 0 <= i < Count(t)
  {
    if i == 0 then x
    else if i - 1 < Count(t.lhs) then BinOp(t.op, Put(t.lhs, i - 1, x), t.rhs)
    else BinOp(t.op, t.lhs, Put(t.rhs, i - 1 - Count(t.lhs), x))
  }

  /** In range, the program's threaded replacement consumes the whole index and builds `Put(t, i, x)`. */
  lemma {:induction false} ReplaceNodeIsPut(t: Node, i: int, x: Node)
    requires 0 <= i < Count(t)
    ensures ReplaceNode(t, i, x).0 <= 0
    ensures ReplaceNode(t, i, x).1 == Put(t, i, x)
  {
    match t
    case BinOp(_, l, r) =>
      if i > 0 {
        var res := ReplaceNode(l, i - 1, x);
        if i - 1 < Count(l) {
          ReplaceNodeIsPut(l, i - 1, x);
          ReplaceNodeMissing(r, res.0 - 1, x);
        } else {
          ReplaceNodeMissing(l, i - 1, x);
          ReplaceNodeIsPut(r, i - 1 - Count(l), x);
        }
      }
    case _ =>
  }

  /** `x` sits at index i of `Put(t, i, x)`. */
  lemma {:induction false} PutPlaces(t: Node, i: int, x: Node)
    requires 0 <= i < Count(t)
    ensures i < Count(Put(t, i, x)) && Subtree(Put(t, i, x), i) == x
  {
    match t
    case BinOp(_, l, r) =>
      if i > 0 {
        if i - 1 < Count(l) {
          PutPlaces(l, i - 1, x);
        } else {
          PutPlaces(r, i - 1 - Count(l), x);
        }
      }
    case _ =>
  }

  /** One level of `Put` into the left subtree, in terms of labels. */
  lemma PutLeftShape(t: Node, i: int, x: Node, inner: seq<Label>)
    requires t.BinOp? && 1 <= i <= Count(t.lhs)
    requires inner == Labels(Put(t.lhs, i - 1, x))
    ensures Labels(Put(t, i, x)) == [OpLabel(t.op)] + inner + Labels(t.rhs)
    ensures SubtreeEnd(t, i) == 1 + SubtreeEnd(t.lhs, i - 1)
  {
    LabelsStep(Put(t, i, x));
  }

  /** One level of `Put` into the right subtree, in terms of labels. */
  lemma PutRightShape(t: Node, i: int, x: Node, inner: seq<Label>)
    requires t.BinOp? && 1 + Count(t.lhs) <= i < Count(t)
    requires inner == Labels(Put(t.rhs, i - 1 - Count(t.lhs), x))
    ensures Labels(Put(t, i, x)) == [OpLabel(t.op)] + Labels(t.lhs) + inner
    ensures SubtreeEnd(t, i) == 1 + Count(t.lhs) + SubtreeEnd(t.rhs, i - 1 - Count(t.lhs))
  {
    LabelsStep(Put(t, i, x));
  }

  /** The labels of `Put(t, i, x)` are those of `t` with the subtree at i swapped for `x`. */
  lemma {:induction false} PutLabels(t: Node, i: int, x: Node)
    requires 0 <= i < Count(t)
    ensures Labels(Put(t, i, x)) == Labels(t)[..i] + Labels(x) + Labels(t)[SubtreeEnd(t, i)..]
    decreases t, 1
  {
    if i == 0 {
      assert Labels(t)[SubtreeEnd(t, 0)..] == [];
    } else if i - 1 < Count(t.lhs) {
      PutLabelsLeft(t, i, x);
    } else {
      PutLabelsRight(t, i, x);
    }
  }

  /** `PutLabels` when index i lies in the left subtree. */
  lemma {:induction false} PutLabelsLeft(t: Node, i: int, x: Node)
    requires t.BinOp? && 1 <= i <= Count(t.lhs)
    ensures Labels(Put(t, i, x)) == Labels(t)[..i] + Labels(x) + Labels(t)[SubtreeEnd(t, i)..]
    decreases t, 0
  {
    var op, l, r := t.op, t.lhs, t.rhs;
    var e := SubtreeEnd(l, i - 1);
    PutLabels(l, i - 1, x);
    PutLeftShape(t, i, x, Labels(Put(l, i - 1, x)));
    assert Labels(t) == [OpLabel(op)] + Labels(l) + Labels(r) by { LabelsStep(t); }
    SpliceLeft(OpLabel(op), Labels(l), Labels(r), Labels(x), i - 1, e, Labels(t), Labels(Put(t, i, x)), i, SubtreeEnd(t, i));
  }

  /** `PutLabels` when index i lies in the right subtree. */
  lemma {:induction false} PutLabelsRight(t: Node, i: int, x: Node)
    requires t.BinOp? && 1 + Count(t.lhs) <= i < Count(t)
    ensures Labels(Put(t, i, x)) == Labels(t)[..i] + Labels(x) + Labels(t)[SubtreeEnd(t, i)..]
    decreases t, 0
  {
    var op, l, r := t.op, t.lhs, t.rhs;
    var j := i - 1 - Count(l);
    var e := SubtreeEnd(r, j);
    PutLabels(r, j, x);
    PutRightShape(t, i, x, Labels(Put(r, j, x)));
    assert Labels(t) == [OpLabel(op)] + Labels(l) + Labels(r) by { LabelsStep(t); }
    SpliceRight(OpLabel(op), Labels(l), Labels(r), Labels(x), j, e, Labels(t), Labels(Put(t, i, x)), i, SubtreeEnd(t, i));
  }

  /** `Put(t, i, x)` holds `x` at index i and is otherwise `t`; the count changes accordingly. */
  lemma PutFound(t: Node, i: int, x: Node)
    requires 0 <= i < Count(t)
    ensures ReplacedAt(t, i, x, Put(t, i, x))
    ensures Count(Put(t, i, x)) == Count(t) - Count(Subtree(t, i)) + Count(x)
  {
    PutPlaces(t, i, x);
    PutLabels(t, i, x);
  }

  /** In range, the result holds `x` at index i and is otherwise `t`; the count changes accordingly. */
  lemma ReplaceNodeFound(t: Node, i: int, x: Node)
    requires 0 <= i < Count(t)
    ensures ReplaceNode(t, i, x).0 <= 0
    ensures ReplacedAt(t, i, x, ReplaceNode(t, i, x).1)
    ensures Count(ReplaceNode(t, i, x).1) == Count(t) - Count(Subtree(t, i)) + Count(x)
  {
    ReplaceNodeIsPut(t, i, x);
    PutFound(t, i, x);
  }

  /** Putting back the subtree found at index i rebuilds the very same tree. */
  lemma {:induction false} PutOwnSubtree(t: Node, i: int)
    requires 0 <= i < Count(t)
    ensures Put(t, i, Subtree(t, i)) == t
  {
    match t
    case BinOp(_, l, r) =>
      if i > 0 {
        if i - 1 < Count(l) {
          PutOwnSubtree(l, i - 1);
        } else {
          PutOwnSubtree(r, i - 1 - Count(l));
        }
      }
    case _ =>
  }

  /** Replacing the node at index i by the node `GetNode` finds there gives back the same tree. */
  lemma ReplaceNodeWithOwnSubtree(t: Node, i: int, dflt: Node)
    requires 0 <= i < Count(t)
    ensures ReplaceNode(t, i, GetNode(t, i, dflt).1).1 == t
  {
    GetNodeFound(t, i, dflt);
    ReplaceNodeIsPut(t, i, Subtree(t, i));
    PutOwnSubtree(t, i);
  }

  // ---------------------------------------------------------------------------
  // Depths

  /** The true depth (root = 0) of the node at pre-order index i. */
  function NodeDepth(t: Node, i: int): (d: nat)
    requires 0 <= i < Count(t)
    ensures d <= Height(t)
  {
    if i == 0 then 0
    else if i - 1 < Count(t.lhs) then 1 + NodeDepth(t.lhs, i - 1)
    else 1 + NodeDepth(t.rhs, i - 1 - Count(t.lhs))
  }

  /** Every step from the root to the node at index i goes into a right child. */
  predicate RightPath(t: Node, i: int)
    requires 0 <= i < Count(t)
  {
    i == 0 || (Count(t.lhs) <= i - 1 && RightPath(t.rhs, i - 1 - Count(t.lhs)))
  }

  /** Number of edges from the root down the chain of right children. */
  function RightSpine(t: Node): (n: nat)
    ensures n <= Height(t)
  {
    match t
    case BinOp(_, _, r) => 1 + RightSpine(r)
    case _ => 0
  }

  /**
   * What `depth_at_node` reports for index i: the true depth while the path
   * keeps to right children; at the first operator whose left subtree holds
   * the node, that operator's depth plus the length of its right spine.
   */
  function ReportedDepth(t: Node, i: int): (d: nat)
    requires 0 <= i < Count(t)
    ensures d <= Height(t)
  {
    if i == 0 then 0
    else if i - 1 < Count(t.lhs) then RightSpine(t)
    else 1 + ReportedDepth(t.rhs, i - 1 - Count(t.lhs))
  }

  /**
   * `depth_at_node(i, (_, depth))` as written: the right subtree is always
   * searched with `depth + 1`, whatever the left subtree found. The unread
   * first component of the accumulator pair is left out.
   */
  function DepthAtNode(t: Node, i: int, depth: int): (int, int) {
    if i == 0 then (0, depth)
    else
      match t
      case BinOp(_, l, r) =>
        var pair := DepthAtNode(l, i - 1, depth + 1);
        DepthAtNode(r, pair.0 - 1, depth + 1)
      case _ => (i, depth)
  }

  /** Not found: the index is consumed as in `GetNode` and the depth grows along the right spine. */
  lemma {:induction false} DepthAtNodeMissing(t: Node, i: int, depth: int)
    requires i < 0 || Count(t) <= i
    ensures DepthAtNode(t, i, depth) == (i - Count(t) + 1, depth + RightSpine(t))
  {
    match t
    case BinOp(_, l, r) =>
      DepthAtNodeMissing(l, i - 1, depth + 1);
      DepthAtNodeMissing(r, i - Count(l) - 1, depth + 1);
    case _ =>
  }

  /** Found: the reported depth, which never exceeds the height of the tree. */
  lemma {:induction false} DepthAtNodeFound(t: Node, i: int, depth: int)
    requires 0 <= i < Count(t)
    ensures DepthAtNode(t, i, depth).0 <= 0
    ensures DepthAtNode(t, i, depth).1 == depth + ReportedDepth(t, i)
    ensures DepthAtNode(t, i, depth).1 <= depth + Height(t)
  {
    match t
    case BinOp(_, l, r) =>
      if i > 0 {
        var pair := DepthAtNode(l, i - 1, depth + 1);
        if i - 1 < Count(l) {
          DepthAtNodeFound(l, i - 1, depth + 1);
          DepthAtNodeMissing(r, pair.0 - 1, depth + 1);
        } else {
          DepthAtNodeMissing(l, i - 1, depth + 1);
          DepthAtNodeFound(r, i - 1 - Count(l), depth + 1);
        }
      }
    case _ =>
  }

  /** Along a path of right children the reported depth is the true depth. */
  lemma {:induction false} ReportedDepthExactOnRightPath(t: Node, i: int)
    requires 0 <= i < Count(t) && RightPath(t, i)
    ensures ReportedDepth(t, i) == NodeDepth(t, i)
    ensures DepthAtNode(t, i, 0).1 == NodeDepth(t, i)
  {
    if i > 0 {
      ReportedDepthExactOnRightPath(t.rhs, i - 1 - Count(t.lhs));
    }
    DepthAtNodeFound(t, i, 0);
  }

  /** A node two levels down on the left is reported one level too shallow. */
  lemma DepthAtNodeUnderreports()
    ensures var t := BinOp(Plus, BinOp(Plus, Var, Var), Var);
            DepthAtNode(t, 2, 0).1 == 1 && NodeDepth(t, 2) == 2
  {
    var t := BinOp(Plus, BinOp(Plus, Var, Var), Var);
    DepthAtNodeFound(t, 2, 0);
  }

  /** A left child whose sibling has a long right spine is reported too deep. */
  lemma DepthAtNodeOverreports()
    ensures var t := BinOp(Plus, BinOp(Plus, Var, Var), BinOp(Plus, Var, BinOp(Plus, Var, Var)));
            DepthAtNode(t, 1, 0).1 == 3 && NodeDepth(t, 1) == 1
  {
    var t := BinOp(Plus, BinOp(Plus, Var, Var), BinOp(Plus, Var, BinOp(Plus, Var, Var)));
    DepthAtNodeFound(t, 1, 0);
  }

  /**
   * `depth_at_node` as evidently intended: once the left subtree has found the
   * node (nothing left of the index), its depth is the answer and the right
   * subtree is not searched.
   */
  function DepthAtNodeFixed(t: Node, i: int, depth: int): (int, int) {
    if i == 0 then (0, depth)
    else
      match t
      case BinOp(_, l, r) =>
        var pair := DepthAtNodeFixed(l, i - 1, depth + 1);
        if pair.0 <= 0 then pair else DepthAtNodeFixed(r, pair.0 - 1, depth + 1)
      case _ => (i, depth)
  }

  /** Past the end, the corrected search consumes the index as `GetNode` does. */
  lemma {:induction false} DepthAtNodeFixedMissing(t: Node, i: int, depth: int)
    requires Count(t) <= i
    ensures DepthAtNodeFixed(t, i, depth).0 == i - Count(t) + 1
  {
    match t
    case BinOp(_, l, r) =>
      DepthAtNodeFixedMissing(l, i - 1, depth + 1);
      DepthAtNodeFixedMissing(r, i - Count(l) - 1, depth + 1);
    case _ =>
  }

  /** In range, the corrected search reports the true depth. */
  lemma {:induction false} DepthAtNodeFixedExact(t: Node, i: int, depth: int)
    requires 0 <= i < Count(t)
    ensures DepthAtNodeFixed(t, i, depth).0 <= 0
    ensures DepthAtNodeFixed(t, i, depth).1 == depth + NodeDepth(t, i)
  {
    match t
    case BinOp(_, l, r) =>
      if i > 0 {
        if i - 1 < Count(l) {
          DepthAtNodeFixedExact(l, i - 1, depth + 1);
        } else {
          DepthAtNodeFixedMissing(l, i - 1, depth + 1);
          DepthAtNodeFixedExact(r, i - 1 - Count(l), depth + 1);
        }
      }
    case _ =>
  }

  /** Replacing the node at index i by `x` leaves the height within reach of the depth of i. */
  lemma {:induction false} PutHeight(t: Node, i: int, x: Node)
    requires 0 <= i < Count(t)
    ensures Height(Put(t, i, x)) <= Height(t) || Height(Put(t, i, x)) <= NodeDepth(t, i) + Height(x)
  {
    match t
    case BinOp(_, l, r) =>
      if i > 0 {
        if i - 1 < Count(l) {
          PutHeight(l, i - 1, x);
        } else {
          PutHeight(r, i - 1 - Count(l), x);
        }
      }
    case _ =>
  }

  lemma ReplaceNodeHeight(t: Node, i: int, x: Node)
    requires 0 <= i < Count(t)
    ensures Height(ReplaceNode(t, i, x).1) <= Height(t) || Height(ReplaceNode(t, i, x).1) <= NodeDepth(t, i) + Height(x)
  {
    ReplaceNodeIsPut(t, i, x);
    PutHeight(t, i, x);
  }

  // ---------------------------------------------------------------------------
  // random_node and trim

  /** The height bound `random_node(d)` keeps for d >= 0: leaves at 0 and 1, d - 1 above. */
  function GenBound(d: int): int {
    if d <= 1 then 0 else d - 1
  }

  function MakeOp(kind: int, l: Node, r: Node): Node {
    if kind == 2 then BinOp(Plus, l, r)
    else if kind == 3 then BinOp(Minus, l, r)
    else if kind == 4 then BinOp(Mult, l, r)
    else BinOp(Div, l, r)
  }

  /**
   * `random_node(d)`, driven by the draw stream. Budgets 0 and 1 give a leaf
   * (pick 0 of two: a constant, else `Var`); any other budget, negative ones
   * included, picks one of six outcomes and builds both children with d - 1.
   * Returns the tree and the rest of the stream.
   */
  function RandomNode(d: int, rng: seq<Draw>): (res: (Node, seq<Draw>))
    ensures |res.1| <= |rng|
    decreases |rng|
  {
    if |rng| == 0 then (Var, [])
    else
      var draw, rest := rng[0], rng[1..];
      if d == 0 || d == 1 then
        (if draw.pick % 2 == 0 then Constant(draw.value) else Var, rest)
      else
        var kind := draw.pick % 6;
        if kind == 0 then (Constant(draw.value), rest)
        else if kind == 1 then (Var, rest)
        else
          var left := RandomNode(d - 1, rest);
          var right := RandomNode(d - 1, left.1);
          (MakeOp(kind, left.0, right.0), right.1)
  }

  /** For a budget d >= 0 the generated tree has height at most GenBound(d); at 0 and 1 it is a leaf. */
  lemma {:induction false} RandomNodeHeight(d: int, rng: seq<Draw>)
    requires d >= 0
    ensures Height(RandomNode(d, rng).0) <= GenBound(d)
    ensures d <= 1 ==> RandomNode(d, rng).0.IsLeaf()
    decreases |rng|
  {
    if |rng| > 0 && d >= 2 {
      var rest := rng[1..];
      var kind := rng[0].pick % 6;
      if kind >= 2 {
        RandomNodeHeight(d - 1, rest);
        RandomNodeHeight(d - 1, RandomNode(d - 1, rest).1);
      }
    }
  }

  /**
   * `trim(budget)`: at budget 0 a leaf is kept and an operator is replaced by a
   * fresh `random_node(0)` leaf; at any other budget (negative included) leaves
   * are kept and operators are rebuilt from children trimmed to budget - 1.
   */
  function Trim(t: Node, budget: int, rng: seq<Draw>): (res: (Node, seq<Draw>)) {
    if budget == 0 then
      if t.IsLeaf() then (t, rng) else RandomNode(0, rng)
    else
      match t
      case BinOp(op, l, r) =>
        var left := Trim(l, budget - 1, rng);
        var right := Trim(r, budget - 1, left.1);
        (BinOp(op, left.0, right.0), right.1)
      case _ => (t, rng)
  }

  /** A non-negative budget bounds the height of the trimmed tree. */
  lemma {:induction false} TrimHeight(t: Node, budget: int, rng: seq<Draw>)
    requires budget >= 0
    ensures Height(Trim(t, budget, rng).0) <= budget
  {
    if budget == 0 {
      RandomNodeHeight(0, rng);
    } else if t.BinOp? {
      TrimHeight(t.lhs, budget - 1, rng);
      TrimHeight(t.rhs, budget - 1, Trim(t.lhs, budget - 1, rng).1);
    }
  }

  /**
   * A tree that already fits its budget, and any tree under a negative budget
   * (which never reaches 0), comes back unchanged without consuming draws.
   */
  lemma {:induction false} TrimKeepsFittingTree(t: Node, budget: int, rng: seq<Draw>)
    requires budget < 0 || Height(t) <= budget
    ensures Trim(t, budget, rng) == (t, rng)
  {
    if budget != 0 && t.BinOp? {
      TrimKeepsFittingTree(t.lhs, budget - 1, rng);
      TrimKeepsFittingTree(t.rhs, budget - 1, rng);
    }
  }
}
