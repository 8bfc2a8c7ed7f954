/** The step that climbs from a freshly inserted leaf towards the root after an insertion,
    deciding at each parent whether the growth in height stops there, goes on upwards, or has
    unbalanced the parent. Balance factors are the left subtree's height minus the right's. */
module Balance {
  import opened TreeShape

  /** What a one-level growth of a parent's left subtree does to the parent. */
  datatype Growth =
    | Absorbed    // the parent's height is unchanged: the climb stops
    | Grew        // the parent grew by one and is still balanced: the climb goes on
    | Unbalanced  // the parent's left side is now two higher: a rotation is due

  /** The height of a node whose subtrees have heights `hl` and `hr`. */
  function Height(hl: nat, hr: nat): nat
  {
    1 + if hl < hr then hr else hl
  }

  /** The decision at a parent whose left subtree grew: its balance factor goes up by one, and
      the new factor says whether the growth was absorbed (0), passed upwards (1) or
      unbalanced the parent (2). */
  function LeftGrowthStep(parentBf: int): (r: (int, Growth))
  {
    var nbf := parentBf + 1;
    (nbf, if nbf == 0 then Absorbed else if nbf == 1 then Grew else Unbalanced)
  }

  /** Against heights: for a balanced parent whose left subtree grows from `hl` to `hl + 1`,
      the new balance factor is the new height difference, the parent keeps its height exactly
      when the step says `Absorbed`, grows by one otherwise, and the step says `Unbalanced`
      exactly when the new difference is 2. */
  lemma LeftGrowthStepHeights(hl: nat, hr: nat)
    requires -1 <= hl - hr <= 1
    ensures var (nbf, g) := LeftGrowthStep(hl - hr);
      nbf == (hl + 1) - hr &&
      (g == Absorbed <==> Height(hl + 1, hr) == Height(hl, hr)) &&
      (g != Absorbed <==> Height(hl + 1, hr) == Height(hl, hr) + 1) &&
      (g == Unbalanced <==> nbf == 2) &&
      (g == Grew ==> -1 <= nbf <= 1)
  {
  }

  /** One pass of the climbing loop as the ordering has it: the parent's balance factor is read
      into a local and bumped when `node` is a left child, and the loop only notes whether the
      height still grows. Neither the stored balance factor nor `node` changes. */
  function BalanceIterationAsWritten(links: map<NodeId, Link>, bf: map<NodeId, int>, node: NodeId): (r: (NodeId, bool))
    requires node in links && links[node].parent in links && links[node].parent in bf
  {
    var parent := links[node].parent;
    if node == links[parent].left then
      (node, LeftGrowthStep(bf[parent]).1 != Absorbed)
    else
      (node, true)
  }

  /** The pass makes no progress: it hands back the same node, and it ends the climb only when
      `node` is a left child whose parent leaned right. In every other case the loop's test sees
      the same state again, so the loop never ends; when it does end it returns the inserted
      leaf itself, which the caller then installs as the root. */
  lemma BalanceAsWrittenStalls(links: map<NodeId, Link>, bf: map<NodeId, int>, node: NodeId)
    requires node in links && links[node].parent in links && links[node].parent in bf
    ensures var (next, grows) := BalanceIterationAsWritten(links, bf, node);
      next == node &&
      (!grows <==> node == links[links[node].parent].left && bf[links[node].parent] == -1)
  {
  }

  /** The climbing loop as the ordering runs it, for at most `fuel` passes: true when the loop's
      test `node != root && height_increased` fails within that many passes. */
  function ClimbEndsAsWritten(links: map<NodeId, Link>, bf: map<NodeId, int>, root: NodeId, node: NodeId,
                              grows: bool, fuel: nat): bool
    requires node in links && links[node].parent in links && links[node].parent in bf
    decreases fuel
  {
    if !(node != root && grows) then true
    else if fuel == 0 then false
    else
      var (next, g) := BalanceIterationAsWritten(links, bf, node);
      ClimbEndsAsWritten(links, bf, root, next, g, fuel - 1)
  }

  /** Started at a new leaf below the root's subtree that is a right child, or a left child
      whose parent did not lean right, the loop never ends: it fails to exit within any number
      of passes. */
  lemma {:induction false} BalanceAsWrittenNeverEnds(links: map<NodeId, Link>, bf: map<NodeId, int>,
                                                     root: NodeId, node: NodeId, fuel: nat)
    requires node in links && links[node].parent in links && links[node].parent in bf
    requires node != root
    requires node != links[links[node].parent].left || bf[links[node].parent] != -1
    ensures !ClimbEndsAsWritten(links, bf, root, node, true, fuel)
  {
    if fuel > 0 {
      BalanceAsWrittenNeverEnds(links, bf, root, node, fuel - 1);
    }
  }
}
