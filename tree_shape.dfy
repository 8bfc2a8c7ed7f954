/** Binary trees stored as an arena of link slots.

    A node is a number (`NodeId`); `Null` (0) is the null pointer. The arena maps each node to
    its link slot (left child, right child, parent). A ghost `Tree` value records the shape the
    links are meant to spell out; `Shape` ties the child links to it and `Parented` the parent
    links. Positions in the in-order sequence (`Inorder`) are what the ordering facts are
    stated about. */
module TreeShape {

  type NodeId = nat

  /** The null pointer. No node is ever stored under this number. */
  const Null: NodeId := 0

  /** The link slot of one node for one ordering. */
  datatype Link = Link(left: NodeId, right: NodeId, parent: NodeId)

  datatype Tree = Nil | Node(left: Tree, id: NodeId, right: Tree)

  function Inorder(t: Tree): seq<NodeId>
  {
    match t
    case Nil => []
    case Node(l, x, r) => Inorder(l) + [x] + Inorder(r)
  }

  ghost predicate Distinct(s: seq<NodeId>)
  {
    forall i, j :: 0 <= i < j < |s| ==> s[i] != s[j]
  }

  /** The child links reachable from pointer `p` spell out exactly `t`. */
  ghost predicate Shape(links: map<NodeId, Link>, t: Tree, p: NodeId)
  {
    match t
    case Nil => p == Null
    case Node(l, x, r) =>
      p == x && x != Null && x in links &&
      Shape(links, l, links[x].left) && Shape(links, r, links[x].right)
  }

  /** Every node of `t` names the node above it as its parent; the top node names `par`. */
  ghost predicate Parented(links: map<NodeId, Link>, t: Tree, par: NodeId)
  {
    match t
    case Nil => true
    case Node(l, x, r) =>
      x in links && links[x].parent == par && Parented(links, l, x) && Parented(links, r, x)
  }

  /** The keys of a sequence of nodes, in the same order. */
  function KeysOf(key: map<NodeId, int>, s: seq<NodeId>): seq<int>
    requires forall x :: x in s ==> x in key
  {
    seq(|s|, i requires 0 <= i < |s| => key[s[i]])
  }

  /** The key at position `i` of `KeysOf(key, s)` is the key of `s[i]`. */
  lemma KeyAt(key: map<NodeId, int>, s: seq<NodeId>, i: nat)
    requires (forall x :: x in s ==> x in key) && i < |s|
    ensures |KeysOf(key, s)| == |s| && s[i] in key && KeysOf(key, s)[i] == key[s[i]]
  {
  }

  /** The subtree of `t` whose top node is `x`. */
  ghost function SubAt(t: Tree, x: NodeId): (u: Tree)
    requires x in Inorder(t)
    ensures u.Node? && u.id == x
  {
    match t
    case Node(l, y, r) =>
      if y == x then t else if x in Inorder(l) then SubAt(l, x) else SubAt(r, x)
  }

  /** Where the subtree of `t` whose top node is `x` begins in `Inorder(t)`. */
  ghost function Start(t: Tree, x: NodeId): nat
    requires x in Inorder(t)
  {
    match t
    case Node(l, y, r) =>
      if y == x then 0
      else if x in Inorder(l) then Start(l, x)
      else |Inorder(l)| + 1 + Start(r, x)
  }

  /** The position of node `x` in `Inorder(t)`. */
  ghost function Pos(t: Tree, x: NodeId): (i: nat)
    requires x in Inorder(t)
    ensures i < |Inorder(t)| && Inorder(t)[i] == x
  {
    match t
    case Node(l, y, r) =>
      if y == x then |Inorder(l)|
      else if x in Inorder(l) then Pos(l, x)
      else |Inorder(l)| + 1 + Pos(r, x)
  }

  /** `t` with a fresh leaf `n` hung below `p`, on the left or on the right. */
  ghost function Graft(t: Tree, p: NodeId, left: bool, n: NodeId): Tree
  {
    match t
    case Nil => Nil
    case Node(l, y, r) =>
      if y == p then
        (if left then Node(Node(Nil, n, Nil), y, r) else Node(l, y, Node(Nil, n, Nil)))
      else Node(Graft(l, p, left, n), y, Graft(r, p, left, n))
  }

  /** The link slots after hanging leaf `n` below `p`: the leaf gets no children and parent `p`,
      and `p`'s child pointer on the chosen side names `n`. */
  function Attach(links: map<NodeId, Link>, p: NodeId, left: bool, n: NodeId): map<NodeId, Link>
    requires p in links
  {
    var withLeaf := links[n := Link(Null, Null, p)];
    if left then withLeaf[p := links[p].(left := n)] else withLeaf[p := links[p].(right := n)]
  }

  lemma DistinctSplit(l: Tree, x: NodeId, r: Tree)
    requires Distinct(Inorder(Node(l, x, r)))
    ensures Distinct(Inorder(l)) && Distinct(Inorder(r))
    ensures x !in Inorder(l) && x !in Inorder(r)
    ensures forall y :: y in Inorder(l) ==> y !in Inorder(r)
  {
    var a, b := Inorder(l), Inorder(r);
    var s := Inorder(Node(l, x, r));
    assert s == a + [x] + b;
    forall i, j | 0 <= i < j < |a| ensures a[i] != a[j] {
      assert s[i] == a[i] && s[j] == a[j];
    }
    forall i, j | 0 <= i < j < |b| ensures b[i] != b[j] {
      assert s[|a| + 1 + i] == b[i] && s[|a| + 1 + j] == b[j];
    }
    forall y | y in a ensures y != x && y !in b {
      var i :| 0 <= i < |a| && a[i] == y;
      assert s[i] == y && s[|a|] == x;
      forall j | 0 <= j < |b| ensures b[j] != y {
        assert s[|a| + 1 + j] == b[j];
      }
    }
    forall j | 0 <= j < |b| ensures b[j] != x {
      assert s[|a| + 1 + j] == b[j] && s[|a|] == x;
    }
  }

  /** A shaped tree holds no null node and all its nodes have link slots. */
  lemma {:induction false} ShapeNodes(links: map<NodeId, Link>, t: Tree, p: NodeId)
    requires Shape(links, t, p)
    ensures forall x :: x in Inorder(t) ==> x != Null && x in links
    ensures t == Nil <==> p == Null
  {
    match t
    case Nil =>
    case Node(l, x, r) =>
      ShapeNodes(links, l, links[x].left);
      ShapeNodes(links, r, links[x].right);
  }

  /** Shape depends only on the child pointers of the tree's own nodes. */
  lemma {:induction false} ShapeFrame(links: map<NodeId, Link>, links': map<NodeId, Link>, t: Tree, p: NodeId)
    requires Shape(links, t, p)
    requires forall x :: x in Inorder(t) && x in links ==>
      x in links' && links'[x].left == links[x].left && links'[x].right == links[x].right
    ensures Shape(links', t, p)
  {
    match t
    case Nil =>
    case Node(l, x, r) =>
      ShapeFrame(links, links', l, links[x].left);
      ShapeFrame(links, links', r, links[x].right);
  }

  /** Parented depends only on the parent pointers of the tree's own nodes. */
  lemma {:induction false} ParentedFrame(links: map<NodeId, Link>, links': map<NodeId, Link>, t: Tree, par: NodeId)
    requires Parented(links, t, par)
    requires forall x :: x in Inorder(t) && x in links ==> x in links' && links'[x].parent == links[x].parent
    ensures Parented(links', t, par)
  {
    match t
    case Nil =>
    case Node(l, x, r) =>
      ParentedFrame(links, links', l, x);
      ParentedFrame(links, links', r, x);
  }

  /** The subtree at `x` fits inside the in-order sequence from `Start(t, x)` on. */
  lemma {:induction false} SubAtSpan(t: Tree, x: NodeId)
    requires x in Inorder(t)
    ensures SubAt(t, x).Node? && SubAt(t, x).id == x
    ensures Start(t, x) + |Inorder(SubAt(t, x))| <= |Inorder(t)|
  {
    match t
    case Node(l, y, r) =>
      if y != x {
        if x in Inorder(l) { SubAtSpan(l, x); } else { SubAtSpan(r, x); }
      }
  }


  /** In a tree without repeated nodes, `Pos` is where the node is. */
  lemma PosAt(t: Tree, i: nat)
    requires Distinct(Inorder(t)) && i < |Inorder(t)|
    ensures Pos(t, Inorder(t)[i]) == i
  {
  }

  /** A node sits right after the left part of its own subtree. */
  lemma {:induction false} PosStart(t: Tree, x: NodeId)
    requires x in Inorder(t)
    ensures SubAt(t, x).Node?
    ensures Pos(t, x) == Start(t, x) + |Inorder(SubAt(t, x).left)|
  {
    match t
    case Node(l, y, r) =>
      if y != x {
        if x in Inorder(l) { PosStart(l, x); } else { PosStart(r, x); }
      }
  }

  /** The subtree at `x` is itself shaped from `x`; this needs no parent links. */
  lemma {:induction false} SubAtShaped(links: map<NodeId, Link>, t: Tree, p: NodeId, x: NodeId)
    requires Shape(links, t, p) && x in Inorder(t)
    ensures x in links && Shape(links, SubAt(t, x), x)
  {
    match t
    case Node(l, y, r) =>
      if y != x {
        if x in Inorder(l) {
          SubAtShaped(links, l, links[y].left, x);
        } else {
          SubAtShaped(links, r, links[y].right, x);
        }
      }
  }

  /** The subtree at `x` is itself shaped from `x` and parented from `x`'s parent. */
  lemma {:induction false} ShapeAt(links: map<NodeId, Link>, t: Tree, p: NodeId, par: NodeId, x: NodeId)
    requires Shape(links, t, p) && Parented(links, t, par) && x in Inorder(t)
    ensures x in links
    ensures Shape(links, SubAt(t, x), x)
    ensures Parented(links, SubAt(t, x), links[x].parent)
  {
    match t
    case Node(l, y, r) =>
      if y != x {
        if x in Inorder(l) {
          ShapeAt(links, l, links[y].left, y, x);
        } else {
          ShapeAt(links, r, links[y].right, y, x);
        }
      }
  }

  /** Climbing one parent link: the parent of a non-top node `x` is a node of the tree whose
      subtree has `x`'s subtree as its left or its right part, and the two start positions are
      related accordingly. The top node's parent is `par`. */
  lemma {:induction false} ParentStep(links: map<NodeId, Link>, t: Tree, p: NodeId, par: NodeId, x: NodeId)
    requires Shape(links, t, p) && Parented(links, t, par) && Distinct(Inorder(t))
    requires x in Inorder(t)
    ensures x in links
    ensures x == p ==> SubAt(t, x) == t && Start(t, x) == 0 && links[x].parent == par
    ensures x != p ==>
      var q := links[x].parent;
      q in Inorder(t) && q in links && SubAt(t, q).Node? &&
      (links[q].left == x ==>
        SubAt(t, q).left == SubAt(t, x) && Start(t, q) == Start(t, x)) &&
      (links[q].left != x ==>
        links[q].right == x && SubAt(t, q).right == SubAt(t, x) &&
        Start(t, x) == Start(t, q) + |Inorder(SubAt(t, q).left)| + 1)
  {
    match t
    case Node(l, y, r) =>
      DistinctSplit(l, y, r);
      ShapeNodes(links, l, links[y].left);
      ShapeNodes(links, r, links[y].right);
      if y == x {
      } else if x in Inorder(l) {
        var z := links[y].left;
        if x == z {
          assert l.id == x;
        } else {
          ParentStep(links, l, z, y, x);
        }
      } else {
        var z := links[y].right;
        if x == z {
          assert r.id == x;
          assert links[y].left != x by {
            if l.Nil? { assert links[y].left == Null; } else { assert l.id in Inorder(l); }
          }
        } else {
          ParentStep(links, r, z, y, x);
        }
      }
  }

  lemma {:induction false} GraftAbsent(t: Tree, p: NodeId, left: bool, n: NodeId)
    requires p !in Inorder(t)
    ensures Graft(t, p, left, n) == t
  {
    match t
    case Nil =>
    case Node(l, y, r) =>
      GraftAbsent(l, p, left, n);
      GraftAbsent(r, p, left, n);
  }

  /** `s` with `n` inserted at position `g`. */
  function InsertAt(s: seq<NodeId>, g: nat, n: NodeId): seq<NodeId>
    requires g <= |s|
  {
    s[..g] + [n] + s[g..]
  }

  /** The members of `InsertAt(s, g, n)` are those of `s` and `n`. */
  lemma InsertAtMembers(s: seq<NodeId>, g: nat, n: NodeId)
    requires g <= |s|
    ensures forall x :: x in InsertAt(s, g, n) <==> x in s || x == n
  {
    assert s == s[..g] + s[g..];
  }

  /** Hanging a leaf into an empty child slot of `p` inserts it into the in-order sequence
      just before `p` (left slot) or just after `p` (right slot). */
  lemma {:induction false} GraftInorder(t: Tree, p: NodeId, left: bool, n: NodeId)
    requires Distinct(Inorder(t)) && p in Inorder(t)
    requires left ==> SubAt(t, p).left == Nil
    requires !left ==> SubAt(t, p).right == Nil
    ensures Inorder(Graft(t, p, left, n)) == InsertAt(Inorder(t), Pos(t, p) + (if left then 0 else 1), n)
  {
    match t
    case Node(l, y, r) =>
      DistinctSplit(l, y, r);
      if y == p {
        GraftTop(l, y, r, left, n);
      } else if p in Inorder(l) {
        GraftAbsent(r, p, left, n);
        GraftInorder(l, p, left, n);
        GraftLeftPart(l, y, r, p, left, n);
      } else {
        GraftAbsent(l, p, left, n);
        GraftInorder(r, p, left, n);
        GraftRightPart(l, y, r, p, left, n);
      }
  }

  lemma GraftTop(l: Tree, y: NodeId, r: Tree, left: bool, n: NodeId)
    requires left ==> l == Nil
    requires !left ==> r == Nil
    ensures var t := Node(l, y, r);
      Inorder(Graft(t, y, left, n)) == InsertAt(Inorder(t), |Inorder(l)| + (if left then 0 else 1), n)
  {
    var a, b := Inorder(l), Inorder(r);
    var s := a + [y] + b;
    if left {
      assert s[..0] == [] && s[0..] == s;
    } else {
      assert s[|a| + 1..] == [] && s[..|a| + 1] == s;
    }
  }

  lemma GraftLeftPart(l: Tree, y: NodeId, r: Tree, p: NodeId, left: bool, n: NodeId)
    requires p != y && p in Inorder(l) && Graft(r, p, left, n) == r
    requires var g := Pos(l, p) + (if left then 0 else 1);
      g <= |Inorder(l)| && Inorder(Graft(l, p, left, n)) == InsertAt(Inorder(l), g, n)
    ensures var t := Node(l, y, r);
      Inorder(Graft(t, p, left, n)) == InsertAt(Inorder(t), Pos(t, p) + (if left then 0 else 1), n)
  {
    var t := Node(l, y, r);
    assert Pos(t, p) == Pos(l, p);
    assert Graft(t, p, left, n) == Node(Graft(l, p, left, n), y, r);
    InsertAtLeft(Inorder(l), y, Inorder(r), Pos(l, p) + (if left then 0 else 1), n);
  }

  lemma GraftRightPart(l: Tree, y: NodeId, r: Tree, p: NodeId, left: bool, n: NodeId)
    requires p != y && p !in Inorder(l) && p in Inorder(r) && Graft(l, p, left, n) == l
    requires var g := Pos(r, p) + (if left then 0 else 1);
      g <= |Inorder(r)| && Inorder(Graft(r, p, left, n)) == InsertAt(Inorder(r), g, n)
    ensures var t := Node(l, y, r);
      Inorder(Graft(t, p, left, n)) == InsertAt(Inorder(t), Pos(t, p) + (if left then 0 else 1), n)
  {
    var t := Node(l, y, r);
    assert Pos(t, p) == |Inorder(l)| + 1 + Pos(r, p);
    assert Graft(t, p, left, n) == Node(l, y, Graft(r, p, left, n));
    InsertAtRight(Inorder(l), y, Inorder(r), Pos(r, p) + (if left then 0 else 1), n);
  }

  lemma InsertAtLeft(a: seq<NodeId>, y: NodeId, b: seq<NodeId>, g: nat, n: NodeId)
    requires g <= |a|
    ensures InsertAt(a + [y] + b, g, n) == InsertAt(a, g, n) + [y] + b
  {
    var s := a + [y] + b;
    assert s[..g] == a[..g];
    assert s[g..] == a[g..] + [y] + b;
  }

  lemma InsertAtRight(a: seq<NodeId>, y: NodeId, b: seq<NodeId>, g: nat, n: NodeId)
    requires g <= |b|
    ensures InsertAt(a + [y] + b, |a| + 1 + g, n) == a + [y] + InsertAt(b, g, n)
  {
    var s, G := a + [y] + b, |a| + 1 + g;
    assert s[..G] == a + [y] + b[..g];
    assert s[G..] == b[g..];
  }

  /** Grafting keeps the child links and the ghost tree in step. */
  lemma {:induction false} GraftShape(links: map<NodeId, Link>, t: Tree, root: NodeId,
                                      p: NodeId, left: bool, n: NodeId)
    requires Shape(links, t, root) && Distinct(Inorder(t))
    requires p in Inorder(t) && n !in Inorder(t) && n != Null && p in links
    requires left ==> links[p].left == Null
    requires !left ==> links[p].right == Null
    ensures Shape(Attach(links, p, left, n), Graft(t, p, left, n), root)
  {
    var links' := Attach(links, p, left, n);
    match t
    case Node(l, y, r) =>
      DistinctSplit(l, y, r);
      if y == p {
        if left {
          ShapeFrame(links, links', r, links[y].right);
        } else {
          ShapeFrame(links, links', l, links[y].left);
        }
      } else if p in Inorder(l) {
        GraftShape(links, l, links[y].left, p, left, n);
        GraftAbsent(r, p, left, n);
        ShapeFrame(links, links', r, links[y].right);
      } else {
        GraftShape(links, r, links[y].right, p, left, n);
        GraftAbsent(l, p, left, n);
        ShapeFrame(links, links', l, links[y].left);
      }
  }

  /** The graft keeps every parent link, and the new leaf names `p` as its parent. */
  lemma {:induction false} GraftParented(links: map<NodeId, Link>, t: Tree, par: NodeId,
                                         p: NodeId, left: bool, n: NodeId)
    requires Parented(links, t, par) && Distinct(Inorder(t))
    requires p in Inorder(t) && n !in Inorder(t) && p in links
    ensures Parented(Attach(links, p, left, n), Graft(t, p, left, n), par)
  {
    var links' := Attach(links, p, left, n);
    match t
    case Node(l, y, r) =>
      DistinctSplit(l, y, r);
      if y == p {
        if left {
          ParentedFrame(links, links', r, y);
        } else {
          ParentedFrame(links, links', l, y);
        }
      } else if p in Inorder(l) {
        GraftParented(links, l, y, p, left, n);
        GraftAbsent(r, p, left, n);
        ParentedFrame(links, links', r, y);
      } else {
        GraftParented(links, r, y, p, left, n);
        GraftAbsent(l, p, left, n);
        ParentedFrame(links, links', l, y);
      }
  }

  lemma GraftDistinct(t: Tree, p: NodeId, left: bool, n: NodeId)
    requires Distinct(Inorder(t)) && p in Inorder(t) && n !in Inorder(t)
    requires left ==> SubAt(t, p).left == Nil
    requires !left ==> SubAt(t, p).right == Nil
    ensures Distinct(Inorder(Graft(t, p, left, n)))
  {
    GraftInorder(t, p, left, n);
    InsertAtDistinct(Inorder(t), Pos(t, p) + (if left then 0 else 1), n);
  }

  /** The entry at `i` of `InsertAt(s, g, n)`. */
  lemma InsertAtIndex(s: seq<NodeId>, g: nat, n: NodeId, i: nat)
    requires g <= |s| && i <= |s|
    ensures |InsertAt(s, g, n)| == |s| + 1
    ensures InsertAt(s, g, n)[i] == if i < g then s[i] else if i == g then n else s[i - 1]
  {
  }

  /** Inserting a node not already present keeps a sequence free of repeats. */
  lemma InsertAtDistinct(s: seq<NodeId>, g: nat, n: NodeId)
    requires Distinct(s) && n !in s && g <= |s|
    ensures Distinct(InsertAt(s, g, n))
  {
    var s' := InsertAt(s, g, n);
    forall i, j | 0 <= i < j < |s'| ensures s'[i] != s'[j] {
      InsertAtIndex(s, g, n, i);
      InsertAtIndex(s, g, n, j);
      if i == g { assert s[j - 1] in s; }
      else if j == g { assert s[i] in s; }
    }
  }

  /** A node's left child tops the left part of its subtree, which starts where the node's
      subtree starts; its right child tops the right part, which starts just after the node. */
  lemma {:induction false} ChildStart(links: map<NodeId, Link>, t: Tree, p: NodeId, x: NodeId)
    requires Shape(links, t, p) && Distinct(Inorder(t)) && x in Inorder(t)
    ensures x in links
    ensures links[x].left != Null ==>
      links[x].left in Inorder(t) && SubAt(t, links[x].left) == SubAt(t, x).left &&
      Start(t, links[x].left) == Start(t, x)
    ensures links[x].right != Null ==>
      links[x].right in Inorder(t) && SubAt(t, links[x].right) == SubAt(t, x).right &&
      Start(t, links[x].right) == Pos(t, x) + 1
  {
    match t
    case Node(l, y, r) =>
      DistinctSplit(l, y, r);
      ShapeNodes(links, l, links[y].left);
      ShapeNodes(links, r, links[y].right);
      if y == x {
        if links[x].left != Null {
          assert l.Node? && l.id == links[x].left && l.id in Inorder(l);
        }
        if links[x].right != Null {
          assert r.Node? && r.id == links[x].right && r.id in Inorder(r);
        }
      } else if x in Inorder(l) {
        ChildStart(links, l, links[y].left, x);
      } else {
        ChildStart(links, r, links[y].right, x);
      }
  }

  lemma KeysOfInsertAt(key: map<NodeId, int>, s: seq<NodeId>, g: nat, n: NodeId)
    requires g <= |s| && n in key && forall x :: x in s ==> x in key
    ensures forall x :: x in InsertAt(s, g, n) ==> x in key
    ensures KeysOf(key, InsertAt(s, g, n)) == KeysOf(key, s)[..g] + [key[n]] + KeysOf(key, s)[g..]
  {
    var s' := InsertAt(s, g, n);
    var ks := KeysOf(key, s);
    assert forall i :: 0 <= i < |s'| ==> s'[i] == (if i < g then s[i] else if i == g then n else s[i - 1]);
    var r := ks[..g] + [key[n]] + ks[g..];
    assert forall i :: 0 <= i < |r| ==> r[i] == (if i < g then ks[i] else if i == g then key[n] else ks[i - 1]);
  }

  /** Climbing from a non-root `x` to its parent `q`: as a left child, `x`'s stretch of the
      in-order sequence starts `q`'s and ends just before `q`; as a right child, it starts just
      after `q` and ends `q`'s. Either way `q`'s subtree is the larger. */
  lemma ParentSpan(links: map<NodeId, Link>, t: Tree, p: NodeId, par: NodeId, x: NodeId)
    requires Shape(links, t, p) && Parented(links, t, par) && Distinct(Inorder(t))
    requires x in Inorder(t) && x != p
    ensures x in links && links[x].parent in Inorder(t) && links[x].parent in links
    ensures var q := links[x].parent;
      |Inorder(SubAt(t, x))| < |Inorder(SubAt(t, q))| <= |Inorder(t)| &&
      (links[q].left == x ==>
        Start(t, q) == Start(t, x) && Pos(t, q) == Start(t, x) + |Inorder(SubAt(t, x))|) &&
      (links[q].left != x ==>
        Pos(t, q) + 1 == Start(t, x) &&
        Start(t, q) + |Inorder(SubAt(t, q))| == Start(t, x) + |Inorder(SubAt(t, x))|)
  {
    ParentStep(links, t, p, par, x);
    var q := links[x].parent;
    SubAtSpan(t, q);
    PosStart(t, q);
    var u := SubAt(t, q);
    assert Inorder(u) == Inorder(u.left) + [q] + Inorder(u.right);
  }

  /** Hanging a fresh leaf `n` into an empty child slot of `p`: the updated links spell out the
      grafted tree, with parent pointers, and `n` enters the in-order sequence right before `p`
      (left slot) or right after it (right slot). */
  lemma GraftLinked(links: map<NodeId, Link>, t: Tree, root: NodeId, p: NodeId, left: bool, n: NodeId)
    requires Shape(links, t, root) && Parented(links, t, Null) && Distinct(Inorder(t))
    requires p in Inorder(t) && n !in Inorder(t) && n != Null && p in links
    requires left ==> links[p].left == Null
    requires !left ==> links[p].right == Null
    ensures var links', t' := Attach(links, p, left, n), Graft(t, p, left, n);
      && Shape(links', t', root) && Parented(links', t', Null)
      && Inorder(t') == InsertAt(Inorder(t), Pos(t, p) + (if left then 0 else 1), n)
      && Distinct(Inorder(t'))
  {
    ShapeAt(links, t, root, Null, p);
    GraftShape(links, t, root, p, left, n);
    GraftParented(links, t, Null, p, left, n);
    GraftInorder(t, p, left, n);
    GraftDistinct(t, p, left, n);
  }

  /** After the graft every node of the tree still has a link slot and a key. */
  lemma GraftMembers(links: map<NodeId, Link>, key: map<NodeId, int>, s: seq<NodeId>,
                     p: NodeId, left: bool, n: NodeId, g: nat)
    requires Null !in links && p in links && n != Null && n in key && g <= |s|
    requires forall x :: x in s ==> x in links && x in key
    ensures Null !in Attach(links, p, left, n)
    ensures forall x :: x in InsertAt(s, g, n) ==> x in Attach(links, p, left, n) && x in key
  {
    InsertAtMembers(s, g, n);
  }

  /** A single node `n` with empty child slots and no parent is the tree holding just `n`. */
  lemma SingleLinked(links: map<NodeId, Link>, n: NodeId)
    requires n != Null
    ensures var links' := links[n := Link(Null, Null, Null)];
      && Shape(links', Node(Nil, n, Nil), n) && Parented(links', Node(Nil, n, Nil), Null)
      && Inorder(Node(Nil, n, Nil)) == [n] && Distinct([n])
  {
  }
}
