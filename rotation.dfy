/** Single rotations of a subtree, on tree values and on the arena of link slots.

    On values, `RotatedRight` and `RotatedLeft` are the textbook rotations; they keep the
    in-order sequence and undo each other. On link slots there are two versions of each: the
    one the ordering performs, which rewires only the two rotated nodes and the middle subtree,
    and a relinked one that also hands the rotated subtree's parent over to the new top node
    and points that parent (or the root) at it. */
module Rotation {
  import opened TreeShape

  /** `v` with left child `w` becomes `w` with right child `v`; the middle subtree moves over. */
  function RotatedRight(t: Tree): (u: Tree)
    requires t.Node? && t.left.Node?
    ensures u.Node? && u.id == t.left.id && u.right.Node? && u.right.id == t.id
  {
    Node(t.left.left, t.left.id, Node(t.left.right, t.id, t.right))
  }

  /** `w` with right child `v` becomes `v` with left child `w`; the middle subtree moves over. */
  function RotatedLeft(t: Tree): (u: Tree)
    requires t.Node? && t.right.Node?
    ensures u.Node? && u.id == t.right.id && u.left.Node? && u.left.id == t.id
  {
    Node(Node(t.left, t.id, t.right.left), t.right.id, t.right.right)
  }

  /** Rotations keep the in-order sequence, and each undoes the other. */
  lemma {:induction false} RotationsKeepOrder(a: Tree, w: NodeId, b: Tree, v: NodeId, c: Tree)
    ensures var t := Node(Node(a, w, b), v, c);
      RotatedRight(t) == Node(a, w, Node(b, v, c)) &&
      Inorder(RotatedRight(t)) == Inorder(t) && RotatedLeft(RotatedRight(t)) == t
    ensures var t := Node(a, w, Node(b, v, c));
      RotatedLeft(t) == Node(Node(a, w, b), v, c) &&
      Inorder(RotatedLeft(t)) == Inorder(t) && RotatedRight(RotatedLeft(t)) == t
  {
    var sa, sb, sc := Inorder(a), Inorder(b), Inorder(c);
    assert sa + [w] + (sb + [v] + sc) == (sa + [w] + sb) + [v] + sc;
  }

  /** `t` with the subtree whose top node is `x` replaced by `u`. */
  ghost function Replace(t: Tree, x: NodeId, u: Tree): Tree
    requires x in Inorder(t)
  {
    match t
    case Node(l, y, r) =>
      if y == x then u
      else if x in Inorder(l) then Node(Replace(l, x, u), y, r)
      else Node(l, y, Replace(r, x, u))
  }

  /** `t` with a right rotation at node `v`. */
  ghost function RotateRightAt(t: Tree, v: NodeId): Tree
    requires v in Inorder(t) && SubAt(t, v).left.Node?
  {
    Replace(t, v, RotatedRight(SubAt(t, v)))
  }

  /** `t` with a left rotation at node `w`. */
  ghost function RotateLeftAt(t: Tree, w: NodeId): Tree
    requires w in Inorder(t) && SubAt(t, w).right.Node?
  {
    Replace(t, w, RotatedLeft(SubAt(t, w)))
  }

  /** The nodes of a subtree are nodes of the tree. */
  lemma {:induction false} SubAtMembers(t: Tree, x: NodeId)
    requires x in Inorder(t)
    ensures forall z :: z in Inorder(SubAt(t, x)) ==> z in Inorder(t)
  {
    match t
    case Node(l, y, r) =>
      if y != x {
        if x in Inorder(l) { SubAtMembers(l, x); } else { SubAtMembers(r, x); }
      }
  }

  /** Replacing a subtree by one with the same in-order sequence keeps the whole in-order
      sequence. */
  lemma {:induction false} ReplaceInorder(t: Tree, x: NodeId, u: Tree)
    requires x in Inorder(t) && Inorder(u) == Inorder(SubAt(t, x))
    ensures Inorder(Replace(t, x, u)) == Inorder(t)
  {
    match t
    case Node(l, y, r) =>
      if y != x {
        if x in Inorder(l) { ReplaceInorder(l, x, u); } else { ReplaceInorder(r, x, u); }
      }
  }

  /** The link slots after the ordering's right rotation at `v`: `w` (the left child of `v`)
      takes `v` as its right child, `v` takes `w` as its parent and `w`'s old right subtree as
      its left one, and that subtree's top takes `v` as its parent. Nothing else changes. */
  function RotateRightLinks(links: map<NodeId, Link>, v: NodeId): map<NodeId, Link>
    requires v in links && links[v].left in links
    requires links[links[v].left].right != Null ==> links[links[v].left].right in links
  {
    var w := links[v].left;
    var b := links[w].right;
    var m := links[w := links[w].(right := v)];
    var m := m[v := m[v].(parent := w)];
    var m := m[v := m[v].(left := b)];
    if b != Null then m[b := m[b].(parent := v)] else m
  }

  /** The link slots after the ordering's left rotation at `w`, the mirror image. */
  function RotateLeftLinks(links: map<NodeId, Link>, w: NodeId): map<NodeId, Link>
    requires w in links && links[w].right in links
    requires links[links[w].right].left != Null ==> links[links[w].right].left in links
  {
    var v := links[w].right;
    var b := links[v].left;
    var m := links[v := links[v].(left := w)];
    var m := m[w := m[w].(parent := v)];
    var m := m[w := m[w].(right := b)];
    if b != Null then m[b := m[b].(parent := w)] else m
  }

  /** `g`'s child pointer that named `x` names `y` instead; no change when `g` is null. */
  function Redirect(links: map<NodeId, Link>, g: NodeId, x: NodeId, y: NodeId): map<NodeId, Link>
    requires g != Null ==> g in links
  {
    if g == Null then links
    else if links[g].left == x then links[g := links[g].(left := y)]
    else links[g := links[g].(right := y)]
  }

  /** The right rotation at `v` with its surroundings relinked: `w` also takes over `v`'s parent,
      and that parent's child pointer names `w`. */
  function RotateRightRelinked(links: map<NodeId, Link>, v: NodeId): map<NodeId, Link>
    requires v in links && links[v].left in links
    requires links[links[v].left].right != Null ==> links[links[v].left].right in links
    requires links[v].parent != Null ==> links[v].parent in links
  {
    var w := links[v].left;
    var g := links[v].parent;
    var m := RotateRightLinks(links, v);
    Redirect(m[w := m[w].(parent := g)], g, v, w)
  }

  /** The left rotation at `w` with its surroundings relinked, the mirror image. */
  function RotateLeftRelinked(links: map<NodeId, Link>, w: NodeId): map<NodeId, Link>
    requires w in links && links[w].right in links
    requires links[links[w].right].left != Null ==> links[links[w].right].left in links
    requires links[w].parent != Null ==> links[w].parent in links
  {
    var v := links[w].right;
    var g := links[w].parent;
    var m := RotateLeftLinks(links, w);
    Redirect(m[v := m[v].(parent := g)], g, w, v)
  }

  /** In a linked tree, a node of the left part whose parent is the top is the top's left
      child, and likewise on the right. */
  lemma ChildOfTop(links: map<NodeId, Link>, l: Tree, y: NodeId, r: Tree, par: NodeId, x: NodeId)
    requires Shape(links, Node(l, y, r), y) && Parented(links, Node(l, y, r), par)
    requires Distinct(Inorder(Node(l, y, r)))
    requires x in Inorder(l) || x in Inorder(r)
    ensures x in links
    ensures x in Inorder(l) ==>
      (x == links[y].left && links[x].parent == y) ||
      (x != links[y].left && links[x].parent in Inorder(l))
    ensures x in Inorder(r) ==>
      (x == links[y].right && links[x].parent == y) ||
      (x != links[y].right && links[x].parent in Inorder(r))
  {
    DistinctSplit(l, y, r);
    if x in Inorder(l) {
      ShapeNodes(links, l, links[y].left);
      if x != l.id {
        ParentStep(links, l, links[y].left, y, x);
      }
    } else {
      ShapeNodes(links, r, links[y].right);
      if x != r.id {
        ParentStep(links, r, links[y].right, y, x);
      }
    }
  }

  /** Swapping in a new subtree `u` for the subtree at `x`: when `u` is linked below `x`'s
      parent `g`, `g` names `u`'s top in place of `x`, and every other node outside the old
      subtree keeps its slot, the links spell out the tree with the subtree replaced. */
  lemma {:induction false} ReplaceLinked(links: map<NodeId, Link>, links': map<NodeId, Link>,
                                         t: Tree, p: NodeId, par: NodeId, x: NodeId, g: NodeId, u: Tree)
    requires Shape(links, t, p) && Parented(links, t, par) && Distinct(Inorder(t))
    requires x in Inorder(t) && x in links && g == links[x].parent
    requires u.Node? && Shape(links', u, u.id) && Parented(links', u, g)
    requires forall y :: y in Inorder(t) && y !in Inorder(SubAt(t, x)) && y != g ==>
      y in links && y in links' && links'[y] == links[y]
    requires g in Inorder(t) ==>
      g in links && g in links' &&
      links'[g] == (if links[g].left == x then links[g].(left := u.id) else links[g].(right := u.id))
    ensures Shape(links', Replace(t, x, u), if x == p then u.id else p)
    ensures Parented(links', Replace(t, x, u), par)
  {
    match t
    case Node(l, y, r) =>
      if y != x {
        DistinctSplit(l, y, r);
        ShapeNodes(links, l, links[y].left);
        ShapeNodes(links, r, links[y].right);
        ChildOfTop(links, l, y, r, par, x);
        var sub := Inorder(SubAt(t, x));
        if x in Inorder(l) {
          SubAtMembers(l, x);
          assert SubAt(t, x) == SubAt(l, x);
          assert y !in sub;
          if g == y {
            assert links'[y] == links[y].(left := u.id);
          } else {
            assert links'[y] == links[y] && x != links[y].left;
          }
          ReplaceLinked(links, links', l, links[y].left, y, x, g, u);
          forall z | z in Inorder(r) ensures z !in sub && z != g && z in links && z in links' && links'[z] == links[z] {
            assert z in Inorder(t);
          }
          ShapeFrame(links, links', r, links[y].right);
          ParentedFrame(links, links', r, y);
        } else {
          SubAtMembers(r, x);
          assert SubAt(t, x) == SubAt(r, x);
          assert y !in sub;
          if g == y {
            assert links'[y] == links[y].(right := u.id) by {
              assert links[y].left != x by {
                if l.Nil? { assert links[y].left == Null; } else { assert l.id in Inorder(l); }
              }
            }
          } else {
            assert links'[y] == links[y] && x != links[y].right;
          }
          ReplaceLinked(links, links', r, links[y].right, y, x, g, u);
          forall z | z in Inorder(l) ensures z !in sub && z != g && z in links && z in links' && links'[z] == links[z] {
            assert z in Inorder(t);
          }
          ShapeFrame(links, links', l, links[y].left);
          ParentedFrame(links, links', l, y);
        }
      }
  }

  /** `m` holds the slots of a relinked right rotation of `links` at `v`, whose left child is
      `w`, whose parent is `g`, and where `bt` is `w`'s right child: `w` and `v` swap roles, `bt`
      moves under `v`, and every slot but those and `g`'s is kept. */
  ghost predicate RightRotatedSlots(links: map<NodeId, Link>, m: map<NodeId, Link>,
                                    v: NodeId, w: NodeId, bt: NodeId, g: NodeId)
    requires v in links && w in links
  {
    && w in m && v in m
    && m[w] == Link(links[w].left, v, g)
    && m[v] == Link(bt, links[v].right, w)
    && (bt != Null ==> bt in links && bt in m && m[bt] == links[bt].(parent := v))
    && (forall z :: z in links && z != w && z != v && z != bt && z != g ==> z in m && m[z] == links[z])
  }

  /** The mirror image: `m` holds the slots of a relinked left rotation at `w`, whose right
      child is `v`, whose parent is `g`, and where `bt` is `v`'s left child. */
  ghost predicate LeftRotatedSlots(links: map<NodeId, Link>, m: map<NodeId, Link>,
                                   w: NodeId, v: NodeId, bt: NodeId, g: NodeId)
    requires v in links && w in links
  {
    && w in m && v in m
    && m[v] == Link(w, links[v].right, g)
    && m[w] == Link(links[w].left, bt, v)
    && (bt != Null ==> bt in links && bt in m && m[bt] == links[bt].(parent := w))
    && (forall z :: z in links && z != w && z != v && z != bt && z != g ==> z in m && m[z] == links[z])
  }

  /** The relinked right rotation, seen from the rotated subtree `s` (top `v`, parent `g`
      outside it): the new links spell out `RotatedRight(s)` from `w`, with `w` below `g`. */
  lemma RotateRightLocal(links: map<NodeId, Link>, m: map<NodeId, Link>, s: Tree, g: NodeId)
    requires s.Node? && s.left.Node? && s.id in links && s.left.id in links
    requires Shape(links, s, s.id) && Parented(links, s, g) && Distinct(Inorder(s)) && g !in Inorder(s)
    requires RightRotatedSlots(links, m, s.id, s.left.id, links[s.left.id].right, g)
    ensures Shape(m, RotatedRight(s), s.left.id) && Parented(m, RotatedRight(s), g)
  {
    var Node(Node(a, w, b), v, c) := s;
    DistinctSplit(s.left, v, c);
    DistinctSplit(a, w, b);
    ShapeNodes(links, a, links[w].left);
    ShapeNodes(links, b, links[w].right);
    ShapeNodes(links, c, links[v].right);
    var bt := links[w].right;
    forall z | z in Inorder(a) || z in Inorder(c) || (z in Inorder(b) && z != bt)
      ensures z in m && z in links && m[z] == links[z]
    {
      assert z != w && z != v && z != g && z != bt;
    }
    ShapeFrame(links, m, a, links[w].left);
    ShapeFrame(links, m, c, links[v].right);
    ParentedFrame(links, m, a, w);
    ParentedFrame(links, m, c, v);
    BelowMoved(links, m, b, bt, w, v);
  }

  /** The relinked left rotation, seen from the rotated subtree, the mirror image. */
  lemma RotateLeftLocal(links: map<NodeId, Link>, m: map<NodeId, Link>, s: Tree, g: NodeId)
    requires s.Node? && s.right.Node? && s.id in links && s.right.id in links
    requires Shape(links, s, s.id) && Parented(links, s, g) && Distinct(Inorder(s)) && g !in Inorder(s)
    requires LeftRotatedSlots(links, m, s.id, s.right.id, links[s.right.id].left, g)
    ensures Shape(m, RotatedLeft(s), s.right.id) && Parented(m, RotatedLeft(s), g)
  {
    var Node(a, w, Node(b, v, c)) := s;
    DistinctSplit(a, w, s.right);
    DistinctSplit(b, v, c);
    ShapeNodes(links, a, links[w].left);
    ShapeNodes(links, b, links[v].left);
    ShapeNodes(links, c, links[v].right);
    var bt := links[v].left;
    forall z | z in Inorder(a) || z in Inorder(c) || (z in Inorder(b) && z != bt)
      ensures z in m && z in links && m[z] == links[z]
    {
      assert z != w && z != v && z != g && z != bt;
    }
    ShapeFrame(links, m, a, links[w].left);
    ShapeFrame(links, m, c, links[v].right);
    ParentedFrame(links, m, a, w);
    ParentedFrame(links, m, c, v);
    BelowMoved(links, m, b, bt, v, w);
  }

  /** The middle subtree `b` of a rotation, topped by `bt`: its top now names `to` as its
      parent and every other slot of it is kept, so it is still shaped and is parented from
      `to`. */
  lemma BelowMoved(links: map<NodeId, Link>, m: map<NodeId, Link>, b: Tree, bt: NodeId, from: NodeId, to: NodeId)
    requires Shape(links, b, bt) && Parented(links, b, from) && Distinct(Inorder(b))
    requires bt != Null ==> bt in links && bt in m && m[bt] == links[bt].(parent := to)
    requires forall z :: z in Inorder(b) && z != bt ==> z in m && z in links && m[z] == links[z]
    ensures Shape(m, b, bt) && Parented(m, b, to)
  {
    if b.Node? {
      var Node(bl, _, br) := b;
      DistinctSplit(bl, bt, br);
      assert m[bt].parent == to && m[bt].left == links[bt].left && m[bt].right == links[bt].right;
      forall z | z in Inorder(bl) || z in Inorder(br) ensures z in m && z in links && m[z] == links[z] {
        assert z in Inorder(b) && z != bt;
      }
      ShapeFrame(links, m, bl, links[bt].left);
      ShapeFrame(links, m, br, links[bt].right);
      ParentedFrame(links, m, bl, bt);
      ParentedFrame(links, m, br, bt);
    }
  }

  /** A subtree of a tree without repeated nodes has none either. */
  lemma {:induction false} SubAtDistinct(t: Tree, x: NodeId)
    requires x in Inorder(t) && Distinct(Inorder(t))
    ensures Distinct(Inorder(SubAt(t, x)))
  {
    match t
    case Node(l, y, r) =>
      DistinctSplit(l, y, r);
      if y != x {
        if x in Inorder(l) { SubAtDistinct(l, x); } else { SubAtDistinct(r, x); }
      }
  }

  /** In a linked tree, a node's parent is null exactly at the top, is otherwise a node of the
      tree, and is never inside the node's own subtree. */
  lemma ParentOutside(links: map<NodeId, Link>, t: Tree, p: NodeId, x: NodeId)
    requires Shape(links, t, p) && Parented(links, t, Null) && Distinct(Inorder(t))
    requires x in Inorder(t)
    ensures x in links
    ensures links[x].parent == Null <==> x == p
    ensures links[x].parent != Null ==> links[x].parent in Inorder(t) && links[x].parent in links
    ensures links[x].parent !in Inorder(SubAt(t, x))
  {
    ShapeNodes(links, t, p);
    ParentStep(links, t, p, Null, x);
    var q := links[x].parent;
    if x != p {
      SubAtDistinct(t, q);
      var Node(l, _, r) := SubAt(t, q);
      DistinctSplit(l, q, r);
    } else {
      assert q == Null;
    }
  }

  /** The relinked right rotation at `v` changes exactly the slots of `w`, `v`, the middle
      subtree's top and `v`'s parent, as `RightRotatedSlots` and `Redirect` describe, and keeps
      the set of slotted nodes. */
  lemma RotateRightSlots(links: map<NodeId, Link>, v: NodeId)
    requires Null !in links && v in links && links[v].left in links
    requires links[links[v].left].right != Null ==> links[links[v].left].right in links
    requires links[v].parent != Null ==> links[v].parent in links
    requires var w, g := links[v].left, links[v].parent;
      w != v && links[w].right != v && links[w].right != w && g != v && g != w &&
      (links[w].right != Null ==> g != links[w].right)
    ensures var w, g := links[v].left, links[v].parent; var m := RotateRightRelinked(links, v);
      m.Keys == links.Keys && RightRotatedSlots(links, m, v, w, links[w].right, g) &&
      (g != Null ==>
        g in m && m[g] == (if links[g].left == v then links[g].(left := w) else links[g].(right := w)))
  {
  }

  /** The relinked left rotation at `w`, the mirror image. */
  lemma RotateLeftSlots(links: map<NodeId, Link>, w: NodeId)
    requires Null !in links && w in links && links[w].right in links
    requires links[links[w].right].left != Null ==> links[links[w].right].left in links
    requires links[w].parent != Null ==> links[w].parent in links
    requires var v, g := links[w].right, links[w].parent;
      w != v && links[v].left != v && links[v].left != w && g != v && g != w &&
      (links[v].left != Null ==> g != links[v].left)
    ensures var v, g := links[w].right, links[w].parent; var m := RotateLeftRelinked(links, w);
      m.Keys == links.Keys && LeftRotatedSlots(links, m, w, v, links[v].left, g) &&
      (g != Null ==>
        g in m && m[g] == (if links[g].left == w then links[g].(left := v) else links[g].(right := v)))
  {
  }

  /** The relinked right rotation at a node `v` of a linked tree that has a left child: the new
      links spell out the tree rotated at `v`, rooted at `v`'s left child when `v` was the root
      and at the old root otherwise, and the in-order sequence and the set of slotted nodes are
      unchanged. */
  lemma RotateRightKeepsLinks(links: map<NodeId, Link>, t: Tree, root: NodeId, v: NodeId)
    requires Null !in links && Shape(links, t, root) && Parented(links, t, Null) && Distinct(Inorder(t))
    requires v in Inorder(t) && v in links && links[v].left != Null
    ensures SubAt(t, v).left.Node? && links[v].left in links
    ensures links[links[v].left].right != Null ==> links[links[v].left].right in links
    ensures links[v].parent != Null ==> links[v].parent in links
    ensures var m := RotateRightRelinked(links, v); var t' := RotateRightAt(t, v);
      m.Keys == links.Keys && Inorder(t') == Inorder(t) &&
      Shape(m, t', if links[v].parent == Null then links[v].left else root) && Parented(m, t', Null)
  {
    ShapeNodes(links, t, root);
    ParentOutside(links, t, root, v);
    ShapeAt(links, t, root, Null, v);
    SubAtDistinct(t, v);
    SubAtMembers(t, v);
    var s := SubAt(t, v);
    var g := links[v].parent;
    var w := links[v].left;
    ShapeNodes(links, s.left, w);
    var Node(Node(a, _, b), _, c) := s;
    var bt := links[w].right;
    ShapeNodes(links, b, bt);
    DistinctSplit(s.left, v, c);
    DistinctSplit(a, w, b);
    assert bt != Null ==> bt == b.id && bt in Inorder(s);
    RotateRightSlots(links, v);
    var m := RotateRightRelinked(links, v);
    RotateRightLocal(links, m, s, g);
    RotationsKeepOrder(a, w, b, v, c);
    ReplaceInorder(t, v, RotatedRight(s));
    forall y | y in Inorder(t) && y !in Inorder(s) && y != g ensures y in links && y in m && m[y] == links[y] {
      assert y != w && y != v && y != bt;
    }
    ReplaceLinked(links, m, t, root, Null, v, g, RotatedRight(s));
  }

  /** The relinked left rotation at a node `w` of a linked tree that has a right child, the
      mirror image. */
  lemma RotateLeftKeepsLinks(links: map<NodeId, Link>, t: Tree, root: NodeId, w: NodeId)
    requires Null !in links && Shape(links, t, root) && Parented(links, t, Null) && Distinct(Inorder(t))
    requires w in Inorder(t) && w in links && links[w].right != Null
    ensures SubAt(t, w).right.Node? && links[w].right in links
    ensures links[links[w].right].left != Null ==> links[links[w].right].left in links
    ensures links[w].parent != Null ==> links[w].parent in links
    ensures var m := RotateLeftRelinked(links, w); var t' := RotateLeftAt(t, w);
      m.Keys == links.Keys && Inorder(t') == Inorder(t) &&
      Shape(m, t', if links[w].parent == Null then links[w].right else root) && Parented(m, t', Null)
  {
    ShapeNodes(links, t, root);
    ParentOutside(links, t, root, w);
    ShapeAt(links, t, root, Null, w);
    SubAtDistinct(t, w);
    SubAtMembers(t, w);
    var s := SubAt(t, w);
    var g := links[w].parent;
    var v := links[w].right;
    ShapeNodes(links, s.right, v);
    var Node(a, _, Node(b, _, c)) := s;
    var bt := links[v].left;
    ShapeNodes(links, b, bt);
    DistinctSplit(a, w, s.right);
    DistinctSplit(b, v, c);
    assert bt != Null ==> bt == b.id && bt in Inorder(s);
    RotateLeftSlots(links, w);
    var m := RotateLeftRelinked(links, w);
    RotateLeftLocal(links, m, s, g);
    RotationsKeepOrder(a, w, b, v, c);
    ReplaceInorder(t, w, RotatedLeft(s));
    forall y | y in Inorder(t) && y !in Inorder(s) && y != g ensures y in links && y in m && m[y] == links[y] {
      assert y != w && y != v && y != bt;
    }
    ReplaceLinked(links, m, t, root, Null, w, g, RotatedLeft(s));
  }

  /** The child links after any right rotation at `v`: `w` keeps its left child and takes `v`
      on the right, `v` takes `w`'s old right child on the left and keeps its right one, and the
      other nodes of the subtree keep their children. These spell out the rotated subtree. */
  lemma RotatedRightShape(links: map<NodeId, Link>, m: map<NodeId, Link>, s: Tree)
    requires s.Node? && s.left.Node? && Shape(links, s, s.id) && Distinct(Inorder(s))
    requires s.id in links && s.left.id in links
    requires var v, w := s.id, s.left.id;
      w in m && v in m && m[w].left == links[w].left && m[w].right == v &&
      m[v].left == links[w].right && m[v].right == links[v].right
    requires forall z :: z in Inorder(s) && z != s.id && z != s.left.id ==>
      z in links && z in m && m[z].left == links[z].left && m[z].right == links[z].right
    ensures Shape(m, RotatedRight(s), s.left.id)
  {
    var Node(Node(a, w, b), v, c) := s;
    DistinctSplit(s.left, v, c);
    DistinctSplit(a, w, b);
    forall z | z in Inorder(a) || z in Inorder(b) || z in Inorder(c)
      ensures z in m && m[z].left == links[z].left && m[z].right == links[z].right
    {
      assert z in Inorder(s) && z != v && z != w;
    }
    ShapeFrame(links, m, a, links[w].left);
    ShapeFrame(links, m, b, links[w].right);
    ShapeFrame(links, m, c, links[v].right);
  }

  /** The child links after any left rotation at `w`, the mirror image. */
  lemma RotatedLeftShape(links: map<NodeId, Link>, m: map<NodeId, Link>, s: Tree)
    requires s.Node? && s.right.Node? && Shape(links, s, s.id) && Distinct(Inorder(s))
    requires s.id in links && s.right.id in links
    requires var w, v := s.id, s.right.id;
      w in m && v in m && m[v].right == links[v].right && m[v].left == w &&
      m[w].right == links[v].left && m[w].left == links[w].left
    requires forall z :: z in Inorder(s) && z != s.id && z != s.right.id ==>
      z in links && z in m && m[z].left == links[z].left && m[z].right == links[z].right
    ensures Shape(m, RotatedLeft(s), s.right.id)
  {
    var Node(a, w, Node(b, v, c)) := s;
    DistinctSplit(a, w, s.right);
    DistinctSplit(b, v, c);
    forall z | z in Inorder(a) || z in Inorder(b) || z in Inorder(c)
      ensures z in m && m[z].left == links[z].left && m[z].right == links[z].right
    {
      assert z in Inorder(s) && z != v && z != w;
    }
    ShapeFrame(links, m, a, links[w].left);
    ShapeFrame(links, m, b, links[v].left);
    ShapeFrame(links, m, c, links[v].right);
  }

  /** The ordering's own right rotation at `v` gets the child links of the rotated subtree
      right, but `w` keeps `v` as its parent while `v` now names `w`, a two-node parent cycle,
      and `v`'s old parent (or the root) still names `v`. */
  lemma RotateRightAsWritten(links: map<NodeId, Link>, t: Tree, root: NodeId, v: NodeId)
    requires Null !in links && Shape(links, t, root) && Parented(links, t, Null) && Distinct(Inorder(t))
    requires v in Inorder(t) && v in links && links[v].left != Null
    ensures SubAt(t, v).left.Node? && links[v].left in links
    ensures links[links[v].left].right != Null ==> links[links[v].left].right in links
    ensures var m, w, g := RotateRightLinks(links, v), links[v].left, links[v].parent;
      m.Keys == links.Keys && Shape(m, RotatedRight(SubAt(t, v)), w) &&
      m[w].parent == v && m[v].parent == w && !Parented(m, RotatedRight(SubAt(t, v)), g) &&
      (g != Null ==> g in m && m[g] == links[g] && (m[g].left == v || m[g].right == v))
  {
    ShapeNodes(links, t, root);
    ParentOutside(links, t, root, v);
    ShapeAt(links, t, root, Null, v);
    SubAtDistinct(t, v);
    var s := SubAt(t, v);
    var g := links[v].parent;
    var w := links[v].left;
    ShapeNodes(links, s.left, w);
    var bt := links[w].right;
    ShapeNodes(links, s.left.right, bt);
    DistinctSplit(s.left, v, s.right);
    ShapeNodes(links, s, v);
    var m := RotateRightLinks(links, v);
    assert m[w] == links[w].(right := v) && m[v] == Link(bt, links[v].right, w);
    forall z | z in Inorder(s) && z != v && z != w
      ensures z in links && z in m && m[z].left == links[z].left && m[z].right == links[z].right
    {
      assert z in links && (z == bt || m[z] == links[z]);
    }
    RotatedRightShape(links, m, s);
    if g != Null {
      ParentStep(links, t, root, Null, v);
      assert m[g] == links[g];
    }
  }

  /** The ordering's own left rotation at `w`, the mirror image. */
  lemma RotateLeftAsWritten(links: map<NodeId, Link>, t: Tree, root: NodeId, w: NodeId)
    requires Null !in links && Shape(links, t, root) && Parented(links, t, Null) && Distinct(Inorder(t))
    requires w in Inorder(t) && w in links && links[w].right != Null
    ensures SubAt(t, w).right.Node? && links[w].right in links
    ensures links[links[w].right].left != Null ==> links[links[w].right].left in links
    ensures var m, v, g := RotateLeftLinks(links, w), links[w].right, links[w].parent;
      m.Keys == links.Keys && Shape(m, RotatedLeft(SubAt(t, w)), v) &&
      m[v].parent == w && m[w].parent == v && !Parented(m, RotatedLeft(SubAt(t, w)), g) &&
      (g != Null ==> g in m && m[g] == links[g] && (m[g].left == w || m[g].right == w))
  {
    ShapeNodes(links, t, root);
    ParentOutside(links, t, root, w);
    ShapeAt(links, t, root, Null, w);
    SubAtDistinct(t, w);
    var s := SubAt(t, w);
    var g := links[w].parent;
    var v := links[w].right;
    ShapeNodes(links, s.right, v);
    var bt := links[v].left;
    ShapeNodes(links, s.right.left, bt);
    DistinctSplit(s.left, w, s.right);
    ShapeNodes(links, s, w);
    var m := RotateLeftLinks(links, w);
    assert m[v] == links[v].(left := w) && m[w] == Link(links[w].left, bt, v);
    forall z | z in Inorder(s) && z != v && z != w
      ensures z in links && z in m && m[z].left == links[z].left && m[z].right == links[z].right
    {
      assert z in links && (z == bt || m[z] == links[z]);
    }
    RotatedLeftShape(links, m, s);
    if g != Null {
      ParentStep(links, t, root, Null, w);
      assert m[g] == links[g];
    }
  }

  /** A concrete case: the two-node tree with root 1 and left child 2. After the ordering's
      right rotation at 1, neither the old root nor the new top heads a tree whose parent links
      lead back up to a null root. */
  lemma RotateRightTwoNodes()
    ensures var links := map[1 := Link(2, Null, Null), 2 := Link(Null, Null, 1)];
      var t := Node(Node(Nil, 2, Nil), 1, Nil);
      Shape(links, t, 1) && Parented(links, t, Null) &&
      var m := RotateRightLinks(links, 1);
      (forall u :: Shape(m, u, 1) ==> !Parented(m, u, Null)) &&
      (forall u :: Shape(m, u, 2) ==> !Parented(m, u, Null))
  {
    var m := RotateRightLinks(map[1 := Link(2, Null, Null), 2 := Link(Null, Null, 1)], 1);
    assert m[1].parent == 2 && m[2].parent == 1;
  }

  /** Undoing the ordering's right rotation at `v` by its left rotation at `w` restores every
      slot except `v`'s parent, which is left naming `w`. */
  lemma RotateLeftUndoesRightAsWritten(links: map<NodeId, Link>, v: NodeId)
    requires Null !in links && v in links && links[v].left in links
    requires var w, b := links[v].left, links[links[v].left].right;
      (b != Null ==> b in links && links[b].parent == w) && links[w].parent == v &&
      w != v && b != v && b != w
    ensures var w := links[v].left; var m := RotateRightLinks(links, v);
      w in m && m[w].right == v && m[v].left == links[w].right &&
      RotateLeftLinks(m, w) == links[v := links[v].(parent := w)]
  {
    var w, b := links[v].left, links[links[v].left].right;
    var m := RotateRightLinks(links, v);
    var r := RotateLeftLinks(m, w);
    var target := links[v := links[v].(parent := w)];
    assert r[v] == target[v] && r[w] == target[w];
    assert b != Null ==> r[b] == target[b];
    assert r.Keys == target.Keys;
    forall z | z in r ensures r[z] == target[z] {
      if z != v && z != w && z != b {
        assert r[z] == m[z] == links[z];
      }
    }
  }

  /** With its surroundings relinked, the left rotation at `w` undoes the right rotation at `v`
      exactly. */
  lemma RotateLeftUndoesRightRelinked(links: map<NodeId, Link>, v: NodeId)
    requires Null !in links && v in links && links[v].left in links
    requires var w, b, g := links[v].left, links[links[v].left].right, links[v].parent;
      (b != Null ==> b in links && links[b].parent == w) && (g != Null ==> g in links) && links[w].parent == v &&
      w != v && b != v && b != w && g != v && g != w && (b != Null ==> g != b) &&
      (g != Null ==> (links[g].left == v || links[g].right == v) && links[g].left != w) &&
      (g != Null && links[g].left == v ==> links[g].right != v)
    ensures var w := links[v].left; var m := RotateRightRelinked(links, v);
      w in m && m[w].right == v && m[v].left == links[w].right && m[w].parent == links[v].parent &&
      RotateLeftRelinked(m, w) == links
  {
    var w, b, g := links[v].left, links[links[v].left].right, links[v].parent;
    var m := RotateRightRelinked(links, v);
    var r := RotateLeftRelinked(m, w);
    assert r[v] == links[v] && r[w] == links[w];
    assert b != Null ==> r[b] == links[b];
    assert g != Null ==> r[g] == links[g];
    assert r.Keys == links.Keys;
    forall z | z in r ensures r[z] == links[z] {
      if z != v && z != w && z != b && z != g {
        assert r[z] == m[z] == links[z];
      }
    }
  }
}
