/** The stand-alone AVL prototype: nodes with a key, a value, left/right/parent links and a
    `heavy` flag that marks a child whose edge to its parent counts two levels instead of one.
    Functions take the root pointer; the nodes live in a heap of link slots. Only `<` on keys is
    used, and equal keys are allowed (they go right). */
module Avl {
  import opened TreeShape

  /** Every node of `t` has an entry in `m`: a key, a heavy flag or a link slot. The entries of
      the two children are spelled out, so that one unfolding reaches them. */
  ghost predicate Covers<V>(m: map<NodeId, V>, t: Tree)
  {
    match t
    case Nil => true
    case Node(l, x, r) =>
      x in m && (l.Node? ==> l.id in m) && (r.Node? ==> r.id in m) && Covers(m, l) && Covers(m, r)
  }

  /** `m` covers a tree exactly when it has an entry for each of the tree's nodes. */
  lemma {:induction false} CoversNodes<V>(m: map<NodeId, V>, t: Tree)
    ensures Covers(m, t) <==> forall x :: x in Inorder(t) ==> x in m
  {
    match t
    case Nil =>
    case Node(l, x, r) =>
      CoversNodes(m, l);
      CoversNodes(m, r);
  }

  /** Every key in `t` is at most `v`. */
  ghost predicate AtMost(key: map<NodeId, int>, t: Tree, v: int)
    requires Covers(key, t)
  {
    match t
    case Nil => true
    case Node(l, x, r) => key[x] <= v && AtMost(key, l, v) && AtMost(key, r, v)
  }

  /** Every key in `t` is at least `v`. */
  ghost predicate AtLeast(key: map<NodeId, int>, t: Tree, v: int)
    requires Covers(key, t)
  {
    match t
    case Nil => true
    case Node(l, x, r) => v <= key[x] && AtLeast(key, l, v) && AtLeast(key, r, v)
  }

  /** The bounds hold exactly when they hold for each node of the tree. */
  lemma {:induction false} BoundNodes(key: map<NodeId, int>, t: Tree, v: int)
    requires Covers(key, t)
    ensures forall x :: x in Inorder(t) ==> x in key
    ensures AtMost(key, t, v) <==> forall x :: x in Inorder(t) ==> key[x] <= v
    ensures AtLeast(key, t, v) <==> forall x :: x in Inorder(t) ==> v <= key[x]
  {
    match t
    case Nil =>
    case Node(l, x, r) =>
      BoundNodes(key, l, v);
      BoundNodes(key, r, v);
  }

  /** A search tree: every key in a node's left part is at most the node's key, and every key
      in its right part is at least the node's key. */
  ghost predicate Ordered(key: map<NodeId, int>, t: Tree)
    requires Covers(key, t)
  {
    match t
    case Nil => true
    case Node(l, y, r) =>
      AtMost(key, l, key[y]) && AtLeast(key, r, key[y]) && Ordered(key, l) && Ordered(key, r)
  }

  /** Parent and child in order: a left child's key is not greater than its parent's, and a
      right child's is not less. */
  ghost predicate LocallyOrdered(key: map<NodeId, int>, t: Tree)
    requires Covers(key, t)
  {
    match t
    case Nil => true
    case Node(l, y, r) =>
      (l.Node? ==> !(key[y] < key[l.id])) && (r.Node? ==> !(key[r.id] < key[y])) &&
      LocallyOrdered(key, l) && LocallyOrdered(key, r)
  }

  /** Where the search for `k` ends: the node it stops at, or `Null`. */
  ghost function Search(key: map<NodeId, int>, t: Tree, k: int): NodeId
    requires Covers(key, t)
  {
    match t
    case Nil => Null
    case Node(l, y, r) =>
      if k < key[y] then Search(key, l, k) else if key[y] < k then Search(key, r, k) else y
  }

  /** Where a new key `k` is hung: below the node the descent ends at, on the left when `k` is
      less than that node's key and on the right otherwise. */
  ghost function Slot(key: map<NodeId, int>, t: Tree, k: int): (NodeId, bool)
    requires Covers(key, t) && t.Node?
  {
    var Node(l, y, r) := t;
    if k < key[y] then (if l.Nil? then (y, true) else Slot(key, l, k))
    else (if r.Nil? then (y, false) else Slot(key, r, k))
  }

  /** `t` with the new leaf `n` hung where the key `k` goes. */
  ghost function Grown(key: map<NodeId, int>, t: Tree, k: int, n: NodeId): Tree
    requires Covers(key, t) && t.Node?
  {
    var (p, left) := Slot(key, t, k);
    Graft(t, p, left, n)
  }

  /** The height `height` computes: -1 for no tree, 0 for a leaf, and otherwise the height
      below the child it steps to plus 2 across a heavy edge or 1 across any other, stepping to
      a heavy left child, else a heavy right child, else the left child if any, else the right. */
  ghost function PathHeight(heavy: map<NodeId, bool>, t: Tree): int
    requires Covers(heavy, t)
  {
    match t
    case Nil => -1
    case Node(l, _, r) =>
      if l.Nil? && r.Nil? then 0
      else if l.Node? && heavy[l.id] then 2 + PathHeight(heavy, l)
      else if r.Node? && heavy[r.id] then 2 + PathHeight(heavy, r)
      else if l.Node? then 1 + PathHeight(heavy, l)
      else 1 + PathHeight(heavy, r)
  }

  /** With DEBUG defined, `height` also asserts that the root's `height_` equals the walked
      height. `height_` is set to 0 when a node is made and never written again, so the assert
      holds exactly for a tree of one node: on any larger tree `height`, and `verify`, which
      calls it first, stop at that assert. */
  lemma {:induction false} DebugHeightOnlyLeaf(heavy: map<NodeId, bool>, t: Tree)
    requires Covers(heavy, t) && t.Node?
    ensures PathHeight(heavy, t) >= 0
    ensures PathHeight(heavy, t) == 0 <==> t.left.Nil? && t.right.Nil?
  {
    if t.left.Node? {
      DebugHeightOnlyLeaf(heavy, t.left);
    }
    if t.right.Node? {
      DebugHeightOnlyLeaf(heavy, t.right);
    }
  }

  /** The true height: the length of the longest downward path, -1 for no tree. */
  function TrueHeight(t: Tree): (h: int)
    ensures t.Nil? <==> h == -1
    ensures t.Node? ==> h >= 0
  {
    match t
    case Nil => -1
    case Node(l, _, r) =>
      var hl, hr := TrueHeight(l), TrueHeight(r);
      1 + if hl < hr then hr else hl
  }

  /** Height-balanced: at every node the two subtrees' heights differ by at most one. */
  ghost predicate Balanced(t: Tree)
  {
    match t
    case Nil => true
    case Node(l, _, r) => -1 <= TrueHeight(l) - TrueHeight(r) <= 1 && Balanced(l) && Balanced(r)
  }

  /** The heavy flags say which children sit two levels below their parent rather than one. */
  ghost predicate HeavyMarks(heavy: map<NodeId, bool>, t: Tree)
    requires Covers(heavy, t)
  {
    match t
    case Nil => true
    case Node(l, _, r) =>
      (l.Node? ==> (heavy[l.id] <==> TrueHeight(l) == TrueHeight(t) - 2)) &&
      (r.Node? ==> (heavy[r.id] <==> TrueHeight(r) == TrueHeight(t) - 2)) &&
      HeavyMarks(heavy, l) && HeavyMarks(heavy, r)
  }

  /** How many levels the edge to child `c` counts. */
  function Drop(heavy: map<NodeId, bool>, c: NodeId): int
    requires c in heavy
  {
    if heavy[c] then 2 else 1
  }

  /** The nodes of `t` have link slots, keys and heavy flags. */
  ghost predicate Stored(links: map<NodeId, Link>, key: map<NodeId, int>, heavy: map<NodeId, bool>, t: Tree)
  {
    Covers(links, t) && Covers(key, t) && Covers(heavy, t)
  }

  /** `verify_inner`'s own checks as the prototype has them, with the DEBUG `height_` assert
      set aside (with DEBUG on, see `DebugHeightOnlyLeaf`). A null root fails: it passes the checks for a null
      root and then goes on to require a height of at least 0. A node must have the expected
      parent and a height of at least 0; a leaf must have height 0; otherwise at most one child
      may be heavy, each child must be in order with the node, and each child is checked with
      the height lowered across its edge. */
  ghost predicate VerifyInnerAsWritten(links: map<NodeId, Link>, key: map<NodeId, int>, heavy: map<NodeId, bool>,
                                       t: Tree, par: NodeId, h: int)
    requires Stored(links, key, heavy, t)
  {
    match t
    case Nil => false
    case Node(l, x, r) =>
      h >= 0 && links[x].parent == par &&
      if l.Nil? && r.Nil? then h == 0
      else
        (l.Nil? || r.Nil? || !heavy[l.id] || !heavy[r.id]) &&
        (l.Node? ==> !(key[x] < key[l.id]) && VerifyInnerAsWritten(links, key, heavy, l, x, h - Drop(heavy, l.id))) &&
        (r.Node? ==> !(key[r.id] < key[x]) && VerifyInnerAsWritten(links, key, heavy, r, x, h - Drop(heavy, r.id)))
  }

  /** `verify_inner` as intended: a null root is fine exactly when no parent and height -1 are
      expected; the order check covers whole subtrees, not just the children; and a node with a
      single child has height 1, so that the child is a leaf across a light edge. */
  ghost predicate VerifyInner(links: map<NodeId, Link>, key: map<NodeId, int>, heavy: map<NodeId, bool>,
                              t: Tree, par: NodeId, h: int)
    requires Stored(links, key, heavy, t)
  {
    match t
    case Nil => par == Null && h == -1
    case Node(l, x, r) =>
      h >= 0 && links[x].parent == par &&
      if l.Nil? && r.Nil? then h == 0
      else
        (l.Nil? || r.Nil? || !heavy[l.id] || !heavy[r.id]) &&
        (l.Nil? || r.Nil? ==> h == 1) &&
        AtMost(key, l, key[x]) && AtLeast(key, r, key[x]) &&
        (l.Node? ==> VerifyInner(links, key, heavy, l, x, h - Drop(heavy, l.id))) &&
        (r.Node? ==> VerifyInner(links, key, heavy, r, x, h - Drop(heavy, r.id)))
  }

  /** The node a search stops at carries the key searched for. */
  lemma {:induction false} SearchSound(key: map<NodeId, int>, t: Tree, k: int)
    requires Covers(key, t)
    ensures var s := Search(key, t, k); s == Null || (s in Inorder(t) && s in key && key[s] == k)
  {
    match t
    case Nil =>
    case Node(l, y, r) =>
      SearchSound(key, l, k);
      SearchSound(key, r, k);
  }

  /** In a search tree the search finds a node whenever some node holds the key. */
  lemma {:induction false} SearchComplete(key: map<NodeId, int>, t: Tree, k: int, x: NodeId)
    requires Covers(key, t) && Ordered(key, t) && Null !in Inorder(t)
    requires x in Inorder(t) && x in key && key[x] == k
    ensures Search(key, t, k) != Null
  {
    var Node(l, y, r) := t;
    BoundNodes(key, l, key[y]);
    BoundNodes(key, r, key[y]);
    if k < key[y] {
      assert x in Inorder(l);
      SearchComplete(key, l, k, x);
    } else if key[y] < k {
      assert x in Inorder(r);
      SearchComplete(key, r, k, x);
    }
  }

  /** A search tree is in order between every parent and child. */
  lemma {:induction false} OrderedIsLocal(key: map<NodeId, int>, t: Tree)
    requires Covers(key, t) && Ordered(key, t)
    ensures LocallyOrdered(key, t)
  {
    match t
    case Nil =>
    case Node(l, y, r) =>
      OrderedIsLocal(key, l);
      OrderedIsLocal(key, r);
  }

  /** Order depends only on the keys of the tree's own nodes. */
  lemma {:induction false} OrderFrame(key: map<NodeId, int>, key': map<NodeId, int>, t: Tree)
    requires forall x :: x in Inorder(t) ==> x in key && x in key' && key'[x] == key[x]
    ensures Covers(key, t) && Covers(key', t)
    ensures Ordered(key', t) == Ordered(key, t)
    ensures LocallyOrdered(key', t) == LocallyOrdered(key, t)
  {
    match t
    case Nil =>
    case Node(l, y, r) =>
      OrderFrame(key, key', l);
      OrderFrame(key, key', r);
      BoundNodes(key, l, key[y]);
      BoundNodes(key, r, key[y]);
      BoundNodes(key', l, key[y]);
      BoundNodes(key', r, key[y]);
  }

  /** The node a new key is hung below is in the tree, and the side it is hung on is free. */
  lemma {:induction false} SlotIn(key: map<NodeId, int>, t: Tree, k: int)
    requires Covers(key, t) && t.Node?
    ensures var (p, left) := Slot(key, t, k);
      && p in Inorder(t) && SubAt(t, p).Node?
      && p in key && (left <==> k < key[p])
  {
    var Node(l, y, r) := t;
    if k < key[y] && l.Node? {
      SlotIn(key, l, k);
    } else if !(k < key[y]) && r.Node? {
      SlotIn(key, r, k);
    }
  }

  /** Grafting adds `n` to the nodes of the tree and nothing else. */
  lemma {:induction false} GraftNodes(t: Tree, p: NodeId, left: bool, n: NodeId)
    ensures forall x :: x in Inorder(Graft(t, p, left, n)) ==> x in Inorder(t) || x == n
    ensures p in Inorder(t) ==> n in Inorder(Graft(t, p, left, n))
  {
    match t
    case Nil =>
    case Node(l, y, r) =>
      if y == p {
        assert Inorder(Node(Nil, n, Nil)) == [n];
      } else {
        GraftNodes(l, p, left, n);
        GraftNodes(r, p, left, n);
      }
  }

  /** Hanging the new node `n` where the descent for `k` ends adds `n` to the tree's nodes and
      nothing else, and lets its top node stay on top. */
  lemma GrownNodes(key: map<NodeId, int>, t: Tree, k: int, n: NodeId)
    requires t.Node? && Covers(key, t)
    ensures var g := Grown(key, t, k, n);
      && g.Node? && g.id == t.id
      && (forall x :: x in Inorder(g) ==> x in Inorder(t) || x == n)
      && n in Inorder(g)
  {
    var (p, left) := Slot(key, t, k);
    SlotIn(key, t, k);
    GraftNodes(t, p, left, n);
  }

  /** Where the descent for `k` goes into the left part, the grown tree keeps the right part
      as it is and grows the left part. */
  lemma GrownSides(key: map<NodeId, int>, t: Tree, k: int, n: NodeId)
    requires t.Node? && Covers(key, t) && Distinct(Inorder(t))
    ensures var Node(l, y, r) := t;
      && (k < key[y] && l.Nil? ==> Grown(key, t, k, n) == Node(Node(Nil, n, Nil), y, r))
      && (k < key[y] && l.Node? ==> Grown(key, t, k, n) == Node(Grown(key, l, k, n), y, r))
      && (!(k < key[y]) && r.Nil? ==> Grown(key, t, k, n) == Node(l, y, Node(Nil, n, Nil)))
      && (!(k < key[y]) && r.Node? ==> Grown(key, t, k, n) == Node(l, y, Grown(key, r, k, n)))
  {
    var Node(l, y, r) := t;
    DistinctSplit(l, y, r);
    if k < key[y] && l.Node? {
      var (p, left) := Slot(key, l, k);
      SlotIn(key, l, k);
      GraftAbsent(r, p, left, n);
    } else if !(k < key[y]) && r.Node? {
      var (p, left) := Slot(key, r, k);
      SlotIn(key, r, k);
      GraftAbsent(l, p, left, n);
    }
  }

  /** Replacing the left part `l` of a search tree by `gl`, whose nodes are those of `l` and one
      more node `n` whose key is not above the top key, gives a search tree, when `gl` is one and
      the keys of the old nodes stay as they were. */
  lemma HangLeft(key: map<NodeId, int>, key': map<NodeId, int>, l: Tree, y: NodeId, r: Tree, gl: Tree, n: NodeId)
    requires Covers(key, Node(l, y, r)) && Ordered(key, Node(l, y, r))
    requires forall x :: x in Inorder(Node(l, y, r)) ==> x in key && x in key' && key'[x] == key[x]
    requires Covers(key', gl) && Ordered(key', gl) && n in key' && key'[n] <= key[y]
    requires forall x :: x in Inorder(gl) ==> x in Inorder(l) || x == n
    ensures Covers(key', Node(gl, y, r)) && Ordered(key', Node(gl, y, r))
  {
    OrderFrame(key, key', r);
    BoundNodes(key, l, key[y]);
    BoundNodes(key, r, key[y]);
    BoundNodes(key', gl, key[y]);
    BoundNodes(key', r, key[y]);
  }

  /** The mirror image of `HangLeft`, for the right part. */
  lemma HangRight(key: map<NodeId, int>, key': map<NodeId, int>, l: Tree, y: NodeId, r: Tree, gr: Tree, n: NodeId)
    requires Covers(key, Node(l, y, r)) && Ordered(key, Node(l, y, r))
    requires forall x :: x in Inorder(Node(l, y, r)) ==> x in key && x in key' && key'[x] == key[x]
    requires Covers(key', gr) && Ordered(key', gr) && n in key' && key[y] <= key'[n]
    requires forall x :: x in Inorder(gr) ==> x in Inorder(r) || x == n
    ensures Covers(key', Node(l, y, gr)) && Ordered(key', Node(l, y, gr))
  {
    OrderFrame(key, key', l);
    BoundNodes(key, l, key[y]);
    BoundNodes(key, r, key[y]);
    BoundNodes(key', l, key[y]);
    BoundNodes(key', gr, key[y]);
  }

  /** Hanging the new node `n` with key `k` where the descent for `k` ends keeps a search tree a
      search tree. */
  lemma {:induction false} GrownOrdered(key: map<NodeId, int>, t: Tree, k: int, n: NodeId)
    requires t.Node? && Covers(key, t) && Distinct(Inorder(t)) && n !in Inorder(t)
    requires Ordered(key, t)
    ensures Covers(key[n := k], Grown(key, t, k, n)) && Ordered(key[n := k], Grown(key, t, k, n))
  {
    var key' := key[n := k];
    var Node(l, y, r) := t;
    CoversNodes(key, t);
    DistinctSplit(l, y, r);
    GrownSides(key, t, k, n);
    if k < key[y] {
      var gl := if l.Nil? then Node(Nil, n, Nil) else Grown(key, l, k, n);
      if l.Node? {
        GrownNodes(key, l, k, n);
        GrownOrdered(key, l, k, n);
      } else {
        assert Inorder(gl) == [n];
      }
      HangLeft(key, key', l, y, r, gl, n);
    } else {
      var gr := if r.Nil? then Node(Nil, n, Nil) else Grown(key, r, k, n);
      if r.Node? {
        GrownNodes(key, r, k, n);
        GrownOrdered(key, r, k, n);
      } else {
        assert Inorder(gr) == [n];
      }
      HangRight(key, key', l, y, r, gr, n);
    }
  }

  /** Replacing the left part of a tree whose parents and children are in order by `gl`, whose
      nodes are those of the left part and one more node `n`, keeps them in order, when `gl` does
      and its top key is not above the top key. */
  lemma HangLeftLocal(key: map<NodeId, int>, key': map<NodeId, int>, l: Tree, y: NodeId, r: Tree, gl: Tree, n: NodeId)
    requires Covers(key, Node(l, y, r)) && LocallyOrdered(key, Node(l, y, r))
    requires forall x :: x in Inorder(Node(l, y, r)) ==> x in key && x in key' && key'[x] == key[x]
    requires Covers(key', gl) && LocallyOrdered(key', gl) && gl.Node? && !(key[y] < key'[gl.id])
    requires forall x :: x in Inorder(gl) ==> x in Inorder(l) || x == n
    requires n in key'
    ensures Covers(key', Node(gl, y, r)) && LocallyOrdered(key', Node(gl, y, r))
  {
    OrderFrame(key, key', r);
  }

  /** The mirror image of `HangLeftLocal`, for the right part. */
  lemma HangRightLocal(key: map<NodeId, int>, key': map<NodeId, int>, l: Tree, y: NodeId, r: Tree, gr: Tree, n: NodeId)
    requires Covers(key, Node(l, y, r)) && LocallyOrdered(key, Node(l, y, r))
    requires forall x :: x in Inorder(Node(l, y, r)) ==> x in key && x in key' && key'[x] == key[x]
    requires Covers(key', gr) && LocallyOrdered(key', gr) && gr.Node? && !(key'[gr.id] < key[y])
    requires forall x :: x in Inorder(gr) ==> x in Inorder(r) || x == n
    requires n in key'
    ensures Covers(key', Node(l, y, gr)) && LocallyOrdered(key', Node(l, y, gr))
  {
    OrderFrame(key, key', l);
  }

  /** Hanging the new node `n` with key `k` where the descent for `k` ends keeps every parent
      and child in order. */
  lemma {:induction false} GrownLocallyOrdered(key: map<NodeId, int>, t: Tree, k: int, n: NodeId)
    requires t.Node? && Covers(key, t) && Distinct(Inorder(t)) && n !in Inorder(t)
    requires LocallyOrdered(key, t)
    ensures Covers(key[n := k], Grown(key, t, k, n)) && LocallyOrdered(key[n := k], Grown(key, t, k, n))
  {
    var key' := key[n := k];
    var Node(l, y, r) := t;
    CoversNodes(key, t);
    DistinctSplit(l, y, r);
    GrownSides(key, t, k, n);
    if k < key[y] {
      var gl := if l.Nil? then Node(Nil, n, Nil) else Grown(key, l, k, n);
      if l.Node? {
        GrownNodes(key, l, k, n);
        GrownLocallyOrdered(key, l, k, n);
      } else {
        assert Inorder(gl) == [n];
      }
      HangLeftLocal(key, key', l, y, r, gl, n);
    } else {
      var gr := if r.Nil? then Node(Nil, n, Nil) else Grown(key, r, k, n);
      if r.Node? {
        GrownNodes(key, r, k, n);
        GrownLocallyOrdered(key, r, k, n);
      } else {
        assert Inorder(gr) == [n];
      }
      HangRightLocal(key, key', l, y, r, gr, n);
    }
  }

  /** The corrected `verify_inner` is stricter than the one as written: on a non-empty tree,
      whatever it accepts, the one as written accepts too. */
  lemma {:induction false} VerifiedStricter(links: map<NodeId, Link>, key: map<NodeId, int>, heavy: map<NodeId, bool>,
                                            t: Tree, par: NodeId, h: int)
    requires Stored(links, key, heavy, t) && t.Node? && VerifyInner(links, key, heavy, t, par, h)
    ensures VerifyInnerAsWritten(links, key, heavy, t, par, h)
  {
    var Node(l, x, r) := t;
    if l.Node? {
      VerifiedStricter(links, key, heavy, l, x, h - Drop(heavy, l.id));
    }
    if r.Node? {
      VerifiedStricter(links, key, heavy, r, x, h - Drop(heavy, r.id));
    }
  }

  /** A tree `verify_inner` (corrected) accepts is a search tree. */
  lemma {:induction false} VerifiedOrdered(links: map<NodeId, Link>, key: map<NodeId, int>, heavy: map<NodeId, bool>,
                                           t: Tree, par: NodeId, h: int)
    requires Stored(links, key, heavy, t) && VerifyInner(links, key, heavy, t, par, h)
    ensures Covers(key, t) && Ordered(key, t)
  {
    match t
    case Nil =>
    case Node(l, x, r) =>
      if l.Node? {
        VerifiedOrdered(links, key, heavy, l, x, h - Drop(heavy, l.id));
      }
      if r.Node? {
        VerifiedOrdered(links, key, heavy, r, x, h - Drop(heavy, r.id));
      }
  }

  /** A tree `verify_inner` (corrected) accepts is balanced and has the expected height, and its
      heavy flags mark exactly the children two levels below their parent. */
  lemma {:induction false} VerifiedHeights(links: map<NodeId, Link>, key: map<NodeId, int>, heavy: map<NodeId, bool>,
                                           t: Tree, par: NodeId, h: int)
    requires Covers(heavy, t) && Stored(links, key, heavy, t) && VerifyInner(links, key, heavy, t, par, h)
    ensures Balanced(t) && TrueHeight(t) == h && HeavyMarks(heavy, t)
  {
    match t
    case Nil =>
    case Node(l, x, r) =>
      if l.Node? {
        VerifiedHeights(links, key, heavy, l, x, h - Drop(heavy, l.id));
      }
      if r.Node? {
        VerifiedHeights(links, key, heavy, r, x, h - Drop(heavy, r.id));
      }
      VerifiedStep(heavy, l, x, r, h);
  }

  /** The height checks `verify_inner` (corrected) makes at one node, with its children already
      balanced at the heights lowered across their edges, make the node balanced at height `h`. */
  lemma VerifiedStep(heavy: map<NodeId, bool>, l: Tree, x: NodeId, r: Tree, h: int)
    requires Covers(heavy, Node(l, x, r)) && h >= 0
    requires l.Nil? && r.Nil? ==> h == 0
    requires l.Nil? || r.Nil? || !heavy[l.id] || !heavy[r.id]
    requires (l.Node? || r.Node?) && (l.Nil? || r.Nil?) ==> h == 1
    requires l.Node? ==> TrueHeight(l) == h - Drop(heavy, l.id) && Balanced(l) && HeavyMarks(heavy, l)
    requires r.Node? ==> TrueHeight(r) == h - Drop(heavy, r.id) && Balanced(r) && HeavyMarks(heavy, r)
    ensures Balanced(Node(l, x, r)) && TrueHeight(Node(l, x, r)) == h && HeavyMarks(heavy, Node(l, x, r))
  {
  }

  /** At a node of a balanced tree with consistent heavy flags, the height lowered across the edge
      to a child is the child's height, at most one child is heavy, and a node with one child has
      height 1. */
  lemma HeightStep(heavy: map<NodeId, bool>, l: Tree, x: NodeId, r: Tree)
    requires Covers(heavy, Node(l, x, r)) && Balanced(Node(l, x, r)) && HeavyMarks(heavy, Node(l, x, r))
    ensures var h := TrueHeight(Node(l, x, r));
      && (l.Node? ==> h - Drop(heavy, l.id) == TrueHeight(l))
      && (r.Node? ==> h - Drop(heavy, r.id) == TrueHeight(r))
      && (l.Nil? || r.Nil? || !heavy[l.id] || !heavy[r.id])
      && (l.Node? != r.Node? ==> h == 1)
  {
  }

  /** Conversely, a balanced search tree with consistent parent links and heavy flags passes the
      corrected `verify_inner` at its true height. */
  lemma {:induction false} TreeVerifies(links: map<NodeId, Link>, key: map<NodeId, int>, heavy: map<NodeId, bool>,
                                        t: Tree, par: NodeId)
    requires Stored(links, key, heavy, t) && (t.Nil? ==> par == Null)
    requires Ordered(key, t) && Balanced(t) && HeavyMarks(heavy, t) && Parented(links, t, par)
    ensures VerifyInner(links, key, heavy, t, par, TrueHeight(t))
  {
    match t
    case Nil =>
    case Node(l, x, r) =>
      HeightStep(heavy, l, x, r);
      if l.Node? {
        TreeVerifies(links, key, heavy, l, x);
      }
      if r.Node? {
        TreeVerifies(links, key, heavy, r, x);
      }
  }

  /** What `verify_inner` as written establishes about links and keys: the tree is not empty,
      every node has the expected parent, and each parent and child are in order. */
  lemma {:induction false} AsWrittenLinks(links: map<NodeId, Link>, key: map<NodeId, int>, heavy: map<NodeId, bool>,
                                          t: Tree, par: NodeId, h: int)
    requires Stored(links, key, heavy, t) && VerifyInnerAsWritten(links, key, heavy, t, par, h)
    ensures t.Node? && Parented(links, t, par)
    ensures Covers(key, t) && LocallyOrdered(key, t)
  {
    var Node(l, x, r) := t;
    if l.Node? {
      AsWrittenLinks(links, key, heavy, l, x, h - Drop(heavy, l.id));
    }
    if r.Node? {
      AsWrittenLinks(links, key, heavy, r, x, h - Drop(heavy, r.id));
    }
  }

  /** The height `verify_inner` as written accepts is the height `height` computes. */
  lemma {:induction false} AsWrittenHeight(links: map<NodeId, Link>, key: map<NodeId, int>, heavy: map<NodeId, bool>,
                                           t: Tree, par: NodeId, h: int)
    requires Stored(links, key, heavy, t) && VerifyInnerAsWritten(links, key, heavy, t, par, h)
    ensures Covers(heavy, t) && PathHeight(heavy, t) == h
  {
    var Node(l, x, r) := t;
    if l.Node? {
      AsWrittenHeight(links, key, heavy, l, x, h - Drop(heavy, l.id));
    }
    if r.Node? {
      AsWrittenHeight(links, key, heavy, r, x, h - Drop(heavy, r.id));
    }
  }

  /** `verify` as the prototype has it, with the DEBUG `height_` asserts set aside: a root that
      is not heavy, and `verify_inner` as written from no parent at the height `height`
      computes. */
  ghost predicate VerifyAsWritten(links: map<NodeId, Link>, key: map<NodeId, int>, heavy: map<NodeId, bool>, t: Tree)
    requires Stored(links, key, heavy, t)
  {
    (t.Node? ==> !heavy[t.id]) && VerifyInnerAsWritten(links, key, heavy, t, Null, PathHeight(heavy, t))
  }

  /** `verify` with the corrected `verify_inner`. */
  ghost predicate Verify(links: map<NodeId, Link>, key: map<NodeId, int>, heavy: map<NodeId, bool>, t: Tree)
    requires Stored(links, key, heavy, t)
  {
    (t.Node? ==> !heavy[t.id]) && VerifyInner(links, key, heavy, t, Null, PathHeight(heavy, t))
  }

  /** The corrected `verify` accepts exactly the balanced search trees whose parent links are
      right, whose heavy flags mark exactly the children two levels below their parent, and
      whose root is not heavy. */
  lemma VerifyMeans(links: map<NodeId, Link>, key: map<NodeId, int>, heavy: map<NodeId, bool>, t: Tree)
    requires Stored(links, key, heavy, t)
    ensures Verify(links, key, heavy, t) <==>
      && Ordered(key, t) && Balanced(t) && HeavyMarks(heavy, t) && Parented(links, t, Null)
      && (t.Node? ==> !heavy[t.id])
    ensures Verify(links, key, heavy, t) ==> TrueHeight(t) == PathHeight(heavy, t)
  {
    if Verify(links, key, heavy, t) {
      var h := PathHeight(heavy, t);
      VerifiedOrdered(links, key, heavy, t, Null, h);
      VerifiedHeights(links, key, heavy, t, Null, h);
      if t.Node? {
        VerifiedStricter(links, key, heavy, t, Null, h);
        AsWrittenLinks(links, key, heavy, t, Null, h);
      }
    }
    if Ordered(key, t) && Balanced(t) && HeavyMarks(heavy, t) && Parented(links, t, Null) {
      TreeVerifies(links, key, heavy, t, Null);
      if t.Node? {
        VerifiedStricter(links, key, heavy, t, Null, TrueHeight(t));
        AsWrittenHeight(links, key, heavy, t, Null, TrueHeight(t));
      }
    }
  }

  /** `verify` as written rejects the empty tree, which the corrected one accepts. The DEBUG
      asserts play no part here: `height` returns -1 for no tree before reaching its own. */
  lemma EmptyTreeRejected()
    ensures !VerifyAsWritten(map[], map[], map[], Nil)
    ensures Verify(map[], map[], map[], Nil)
  {
  }

  /** `verify_inner`'s own checks, with the DEBUG asserts set aside, accept a chain of three
      nodes, each the right child of the one before, which is not balanced. With DEBUG on,
      `height` stops at its assert on this tree first. */
  lemma ChainAccepted()
    ensures var links := map[1 := Link(Null, 2, Null), 2 := Link(Null, 3, 1), 3 := Link(Null, Null, 2)];
      var key, heavy := map[1 := 1, 2 := 2, 3 := 3], map[1 := false, 2 := false, 3 := false];
      var t := Node(Nil, 1, Node(Nil, 2, Node(Nil, 3, Nil)));
      && Shape(links, t, 1) && Stored(links, key, heavy, t)
      && VerifyAsWritten(links, key, heavy, t) && !Balanced(t) && !Verify(links, key, heavy, t)
  {
    var links := map[1 := Link(Null, 2, Null), 2 := Link(Null, 3, 1), 3 := Link(Null, Null, 2)];
    var key, heavy := map[1 := 1, 2 := 2, 3 := 3], map[1 := false, 2 := false, 3 := false];
    var t := Node(Nil, 1, Node(Nil, 2, Node(Nil, 3, Nil)));
    assert PathHeight(heavy, t) == 2;
    assert TrueHeight(t.right) == 1;
  }

  /** `verify_inner`'s own checks, with the DEBUG asserts set aside, accept a tree where the key
      6 sits in the left part of the root with key 5. With DEBUG on, `height` stops at its
      assert on this tree first. */
  lemma MisorderedAccepted()
    ensures var links := map[1 := Link(2, 3, Null), 2 := Link(Null, 4, 1), 3 := Link(Null, 5, 1),
                             4 := Link(Null, Null, 2), 5 := Link(Null, Null, 3)];
      var key := map[1 := 5, 2 := 3, 3 := 7, 4 := 6, 5 := 8];
      var heavy := map[1 := false, 2 := false, 3 := false, 4 := false, 5 := false];
      var t := Node(Node(Nil, 2, Node(Nil, 4, Nil)), 1, Node(Nil, 3, Node(Nil, 5, Nil)));
      && Shape(links, t, 1) && Stored(links, key, heavy, t)
      && VerifyAsWritten(links, key, heavy, t)
  {
    var links := map[1 := Link(2, 3, Null), 2 := Link(Null, 4, 1), 3 := Link(Null, 5, 1),
                      4 := Link(Null, Null, 2), 5 := Link(Null, Null, 3)];
    var key := map[1 := 5, 2 := 3, 3 := 7, 4 := 6, 5 := 8];
    var heavy := map[1 := false, 2 := false, 3 := false, 4 := false, 5 := false];
    var a, c := Node(Nil, 4, Nil), Node(Nil, 5, Nil);
    var l, r := Node(Nil, 2, a), Node(Nil, 3, c);
    var t := Node(l, 1, r);
    assert Stored(links, key, heavy, a) && Stored(links, key, heavy, c);
    assert Stored(links, key, heavy, l) && Stored(links, key, heavy, r);
    assert PathHeight(heavy, t) == 2;
    assert VerifyInnerAsWritten(links, key, heavy, a, 2, 0);
    assert VerifyInnerAsWritten(links, key, heavy, c, 3, 0);
    assert VerifyInnerAsWritten(links, key, heavy, l, 1, 1);
    assert VerifyInnerAsWritten(links, key, heavy, r, 1, 1);
  }

  /** In that tree the search for 6 misses the node that holds it, and the tree is not a search
      tree, so the corrected `verify` rejects it. */
  lemma MisorderedMissed()
    ensures var key := map[1 := 5, 2 := 3, 3 := 7, 4 := 6, 5 := 8];
      var t := Node(Node(Nil, 2, Node(Nil, 4, Nil)), 1, Node(Nil, 3, Node(Nil, 5, Nil)));
      && Covers(key, t) && 4 in Inorder(t) && key[4] == 6
      && Search(key, t, 6) == Null && !Ordered(key, t)
  {
    var key := map[1 := 5, 2 := 3, 3 := 7, 4 := 6, 5 := 8];
    var a, c := Node(Nil, 4, Nil), Node(Nil, 5, Nil);
    var l, r := Node(Nil, 2, a), Node(Nil, 3, c);
    var t := Node(l, 1, r);
    assert Covers(key, a) && Covers(key, c);
    assert Covers(key, l) && Covers(key, r);
    assert Inorder(t) == [2, 4, 1, 3, 5];
    assert !AtMost(key, l, 5);
  }

  /** A fresh node `n` hung below a leaf slot and given itself as parent, as
      `insert_without_rebalancing` does, leaves the tree's shape right but its parent links
      wrong. */
  lemma SelfParentBreaks(links: map<NodeId, Link>, t: Tree, root: NodeId, n: NodeId)
    requires Shape(links, t, root) && Distinct(Inorder(t))
    requires n in Inorder(t) && n != root && n in links && links[n].parent == n
    ensures !Parented(links, t, Null)
  {
    if Parented(links, t, Null) {
      ParentSpan(links, t, root, Null, n);
      assert false;
    }
  }

  /** After a new node `n` with key `k` is put into the order of `t` at position `g`, the keys
      and heavy flags, with `n`'s added, cover the grown tree. */
  lemma Relabelled(key: map<NodeId, int>, heavy: map<NodeId, bool>, t: Tree, t': Tree, k: int, n: NodeId, g: nat)
    requires Covers(key, t) && Covers(heavy, t) && g <= |Inorder(t)|
    requires Inorder(t') == InsertAt(Inorder(t), g, n)
    ensures Covers(key[n := k], t') && Covers(heavy[n := false], t')
  {
    CoversNodes(key, t);
    CoversNodes(heavy, t);
    InsertAtMembers(Inorder(t), g, n);
    CoversNodes(key[n := k], t');
    CoversNodes(heavy[n := false], t');
  }

  /** Hanging a new node `n` with key `k` where the descent for `k` ends, with its parent link
      pointing to the node above it, gives the grown tree: linked, with `n` placed right before
      or after that node in order, covered by the keys and flags with `n`'s added, and a search
      tree when `t` was one. */
  lemma Inserted(links: map<NodeId, Link>, key: map<NodeId, int>, heavy: map<NodeId, bool>, t: Tree, root: NodeId,
                 k: int, n: NodeId, p: NodeId, left: bool)
    requires Shape(links, t, root) && Parented(links, t, Null) && Distinct(Inorder(t))
    requires Covers(key, t) && Covers(heavy, t) && t.Node? && (p, left) == Slot(key, t, k)
    requires n != Null && n !in links && p in links
    requires left ==> links[p].left == Null
    requires !left ==> links[p].right == Null
    ensures p in Inorder(t)
    ensures var links', g := Attach(links, p, left, n), Grown(key, t, k, n);
      && Shape(links', g, root) && Parented(links', g, Null) && Distinct(Inorder(g))
      && Inorder(g) == InsertAt(Inorder(t), Pos(t, p) + (if left then 0 else 1), n)
      && (forall x :: x in Inorder(g) <==> x in Inorder(t) || x == n)
      && Covers(key[n := k], g) && Covers(heavy[n := false], g)
      && (Ordered(key, t) ==> Ordered(key[n := k], g))
      && (LocallyOrdered(key, t) ==> LocallyOrdered(key[n := k], g))
  {
    ShapeNodes(links, t, root);
    SlotIn(key, t, k);
    GraftLinked(links, t, root, p, left, n);
    InsertAtMembers(Inorder(t), Pos(t, p) + (if left then 0 else 1), n);
    Relabelled(key, heavy, t, Grown(key, t, k, n), k, n, Pos(t, p) + (if left then 0 else 1));
    if Ordered(key, t) {
      GrownOrdered(key, t, k, n);
    }
    if LocallyOrdered(key, t) {
      GrownLocallyOrdered(key, t, k, n);
    }
  }

  /** Hanging the new node as `insert_without_rebalancing` does, as its own parent, gives the
      grown tree's shape but not its parent links. Only the child links are read on the way
      down, so this holds whatever the parent links were before. */
  lemma SelfParented(links: map<NodeId, Link>, key: map<NodeId, int>, t: Tree, root: NodeId,
                     k: int, n: NodeId, p: NodeId, left: bool)
    requires Shape(links, t, root) && Distinct(Inorder(t))
    requires Covers(key, t) && t.Node? && (p, left) == Slot(key, t, k)
    requires n != Null && n !in links && p in links
    requires left ==> links[p].left == Null
    requires !left ==> links[p].right == Null
    ensures var links', g := Attach(links, p, left, n)[n := Link(Null, Null, n)], Grown(key, t, k, n);
      Shape(links', g, root) && Distinct(Inorder(g)) && !Parented(links', g, Null)
  {
    ShapeNodes(links, t, root);
    SlotIn(key, t, k);
    SubAtShaped(links, t, root, p);
    GraftShape(links, t, root, p, left, n);
    GraftDistinct(t, p, left, n);
    GraftNodes(t, p, left, n);
    var attached, g := Attach(links, p, left, n), Grown(key, t, k, n);
    var links' := attached[n := Link(Null, Null, n)];
    ShapeFrame(attached, links', g, root);
    SelfParentBreaks(links', g, root, n);
  }

  /** The prototype's nodes: link slots, keys, values and heavy flags, and the address the next
      new node gets. */
  class Heap {
    var links: map<NodeId, Link>
    var key: map<NodeId, int>
    var value: map<NodeId, string>
    var heavy: map<NodeId, bool>
    var next: NodeId

    /** Every allocated node has a key, a value and a heavy flag, and lies below `next`. */
    ghost predicate Allocated()
      reads this
    {
      Null !in links && 0 < next &&
      forall x :: x in links ==> x < next && x in key && x in value && x in heavy
    }

    /** The tree `t` hangs from `root`: its child links spell out `t`, its parent links point back
        up, and no node occurs twice. */
    ghost predicate Holds(t: Tree, root: NodeId)
      reads this
    {
      Allocated() && Shape(links, t, root) && Parented(links, t, Null) && Distinct(Inorder(t)) &&
      Covers(key, t) && Covers(heavy, t)
    }

    constructor ()
      ensures Allocated() && links == map[] && key == map[] && value == map[] && heavy == map[]
      ensures next == 1
    {
      links, key, value, heavy := map[], map[], map[], map[];
      next := 1;
    }

    /** `new AVLnode(K, V)`: a node not allocated before, with the given key and value, no links
        and not heavy. */
    method NewNode(k: int, v: string) returns (n: NodeId)
      requires Allocated()
      modifies this
      ensures Allocated() && n == old(next) && n != Null && n !in old(links)
      ensures links == old(links)[n := Link(Null, Null, Null)]
      ensures key == old(key)[n := k] && value == old(value)[n := v] && heavy == old(heavy)[n := false]
      ensures next == old(next) + 1
    {
      n := next;
      links := links[n := Link(Null, Null, Null)];
      key := key[n := k];
      value := value[n := v];
      heavy := heavy[n := false];
      next := next + 1;
    }

    /** `find`: walk down from `root`, left when `k` is less than the node's key, right when it is
        greater, and stop at a node with neither. The node found holds `k`; `Null` comes back
        only when no node holds `k`, provided the tree is a search tree. */
    method Find(root: NodeId, k: int, ghost t: Tree) returns (cur: NodeId)
      requires Allocated() && Shape(links, t, root)
      ensures Covers(key, t) && cur == Search(key, t, k)
      ensures cur == Null || (cur in Inorder(t) && cur in key && key[cur] == k)
      ensures cur == Null && Ordered(key, t) ==> forall x :: x in Inorder(t) ==> x in key && key[x] != k
    {
      ShapeNodes(links, t, root);
      CoversNodes(key, t);
      cur := root;
      ghost var sub := t;
      while cur != Null
        invariant Shape(links, sub, cur) && Covers(key, sub)
        invariant Search(key, t, k) == Search(key, sub, k)
        decreases sub
      {
        if k < key[cur] {
          cur, sub := links[cur].left, sub.left;
        } else if key[cur] < k {
          cur, sub := links[cur].right, sub.right;
        } else {
          break;
        }
      }
      SearchSound(key, t, k);
      if cur == Null && Ordered(key, t) {
        forall x | x in Inorder(t) ensures x in key && key[x] != k {
          if key[x] == k {
            SearchComplete(key, t, k, x);
          }
        }
      }
    }
  
    /** The walk of `insert_without_rebalancing`: from a non-empty tree's root, go left when `k` is
        less than the node's key and right otherwise, until that side is free. It ends at the node
        the new key is hung below, with a free slot on the side the key belongs. */
    method Descend(root: NodeId, k: int, ghost t: Tree) returns (p: NodeId, left: bool)
      requires Allocated() && Shape(links, t, root) && root != Null
      ensures t.Node? && Covers(key, t) && (p, left) == Slot(key, t, k)
      ensures p in Inorder(t) && p in links && p in key && (left <==> k < key[p])
      ensures left ==> links[p].left == Null
      ensures !left ==> links[p].right == Null
    {
      ShapeNodes(links, t, root);
      CoversNodes(key, t);
      p := root;
      ghost var sub := t;
      while true
        invariant Shape(links, sub, p) && sub.Node? && Covers(key, sub)
        invariant Slot(key, t, k) == Slot(key, sub, k)
        decreases sub
      {
        if k < key[p] {
          if links[p].left != Null {
            p, sub := links[p].left, sub.left;
            continue;
          }
          left := true;
          break;
        } else {
          if links[p].right != Null {
            p, sub := links[p].right, sub.right;
            continue;
          }
          left := false;
          break;
        }
      }
      SlotIn(key, t, k);
    }
  
    /** `insert_without_rebalancing`, with the new node's parent link set to the node it is hung
        below: the new node becomes the left child there when `k` is less than that node's key,
        and the right child otherwise. It comes right before or after that node in order, the
        links are still consistent, nothing else changes, and a search tree stays one. */
    method InsertWithoutRebalancing(root: NodeId, k: int, v: string, ghost t: Tree) returns (n: NodeId)
      requires Holds(t, root) && root != Null
      modifies this
      ensures n == old(next) && n !in old(links) && next == old(next) + 1
      ensures key == old(key)[n := k] && value == old(value)[n := v] && heavy == old(heavy)[n := false]
      ensures t.Node? && Covers(old(key), t)
      ensures var (p, left) := Slot(old(key), t, k);
        && p in Inorder(t) && p in old(links) && (left <==> k < old(key)[p])
        && links == Attach(old(links), p, left, n)
        && Inorder(Grown(old(key), t, k, n)) == InsertAt(Inorder(t), Pos(t, p) + (if left then 0 else 1), n)
      ensures Holds(Grown(old(key), t, k, n), root)
      ensures forall x :: x in Inorder(Grown(old(key), t, k, n)) <==> x in Inorder(t) || x == n
      ensures Ordered(old(key), t) ==> Ordered(key, Grown(old(key), t, k, n))
      ensures LocallyOrdered(old(key), t) ==> LocallyOrdered(key, Grown(old(key), t, k, n))
    {
      ghost var links0, key0, heavy0 := links, key, heavy;
      var p, left := Descend(root, k, t);
      n := NewNode(k, v);
      var l := links;
      if left {
        l := l[p := l[p].(left := n)];
      } else {
        l := l[p := l[p].(right := n)];
      }
      l := l[n := l[n].(parent := p)];
      assert l == Attach(links0, p, left, n) && l.Keys == links.Keys;
      links := l;
      Inserted(links0, key0, heavy0, t, root, k, n, p, left);
    }

    /** `insert_without_rebalancing` as written: the new node is hung in the same place, but is
        made its own parent. The child links spell out the grown tree, but its parent links are
        wrong. The descent reads only child links, so it needs no parent links to be right
        before, and it can be repeated on its own result. */
    method InsertWithoutRebalancingAsWritten(root: NodeId, k: int, v: string, ghost t: Tree) returns (n: NodeId)
      requires Allocated() && Shape(links, t, root) && Distinct(Inorder(t)) && root != Null
      modifies this
      ensures n == old(next) && n !in old(links) && next == old(next) + 1
      ensures key == old(key)[n := k] && value == old(value)[n := v] && heavy == old(heavy)[n := false]
      ensures t.Node? && Covers(old(key), t)
      ensures var (p, left) := Slot(old(key), t, k);
        p in old(links) && links == Attach(old(links), p, left, n)[n := Link(Null, Null, n)]
      ensures links[n].parent == n
      ensures Allocated() && Shape(links, Grown(old(key), t, k, n), root)
      ensures Distinct(Inorder(Grown(old(key), t, k, n)))
      ensures !Parented(links, Grown(old(key), t, k, n), Null)
    {
      ghost var links0, key0 := links, key;
      var p, left := Descend(root, k, t);
      n := NewNode(k, v);
      var l := links;
      if left {
        l := l[p := l[p].(left := n)];
      } else {
        l := l[p := l[p].(right := n)];
      }
      l := l[n := l[n].(parent := n)];
      assert l == Attach(links0, p, left, n)[n := Link(Null, Null, n)] && l.Keys == links.Keys;
      links := l;
      SelfParented(links0, key0, t, root, k, n, p, left);
    }
  
    /** `insert` without the rebalancing it has yet to do: into no tree, a single new node that is
        the new root; otherwise the new node is hung as `InsertWithoutRebalancing` hangs it and
        the root stays, and only the link of the node it is hung below changes besides the new
        node's own. Either way the tree gains exactly the new node, its links stay consistent,
        and a search tree stays one. */
    method Insert(root: NodeId, k: int, v: string, ghost t: Tree) returns (r: NodeId, ghost t': Tree)
      requires Holds(t, root)
      modifies this
      ensures key == old(key)[old(next) := k] && value == old(value)[old(next) := v]
      ensures heavy == old(heavy)[old(next) := false] && next == old(next) + 1
      ensures Covers(old(key), t) && Holds(t', r)
      ensures root == Null ==> r == old(next) && t' == Node(Nil, r, Nil) && links == old(links)[r := Link(Null, Null, Null)]
      ensures root != Null ==> t.Node? && r == root && t' == Grown(old(key), t, k, old(next))
      ensures root != Null ==> var (p, left) := Slot(old(key), t, k);
        p in old(links) && links == Attach(old(links), p, left, old(next))
      ensures forall x :: x in Inorder(t') <==> x in Inorder(t) || x == old(next)
      ensures Ordered(old(key), t) ==> Ordered(key, t')
      ensures LocallyOrdered(old(key), t) ==> LocallyOrdered(key, t')
    {
      if root == Null {
        ShapeNodes(links, t, root);
        r := NewNode(k, v);
        t' := Node(Nil, r, Nil);
        SingleLinked(old(links), r);
        return;
      }
      ghost var key0 := key;
      var n := InsertWithoutRebalancing(root, k, v, t);
      r, t' := root, Grown(key0, t, k, n);
    }

    /** `remove` is a stub: it hands back the node it is given and changes nothing. */
    method Remove(it: NodeId) returns (r: NodeId)
      ensures r == it
    {
      r := it;
    }

    /** `height`: -1 for no tree; otherwise walk down from the root until a leaf, stepping to a
        heavy left child, else a heavy right child, else the only or the left child, and count 2
        for each heavy edge and 1 for each other. */
    method Height(root: NodeId, ghost t: Tree) returns (h: int)
      requires Allocated() && Shape(links, t, root)
      ensures Covers(heavy, t) && h == PathHeight(heavy, t)
      ensures t.Nil? <==> h == -1
      ensures t.Node? ==> h >= 0
    {
      ShapeNodes(links, t, root);
      CoversNodes(heavy, t);
      if root == Null {
        return -1;
      }
      var cur := root;
      ghost var sub := t;
      h := 0;
      while links[cur].left != Null || links[cur].right != Null
        invariant Shape(links, sub, cur) && sub.Node? && Covers(heavy, sub)
        invariant PathHeight(heavy, t) == h + PathHeight(heavy, sub) && h >= 0
        decreases sub
      {
        var l, r := links[cur].left, links[cur].right;
        if l != Null && heavy[l] {
          h := h + 2;
          cur, sub := l, sub.left;
        } else if r != Null && heavy[r] {
          h := h + 2;
          cur, sub := r, sub.right;
        } else {
          if l != Null {
            cur, sub := l, sub.left;
          } else {
            cur, sub := r, sub.right;
          }
          h := h + 1;
        }
      }
    }
  }
}
