/** One ordering of a multi-index container: an intrusive, threaded binary search tree over
    records that live elsewhere. Each record carries, for this ordering, a left, right and parent
    link and a balance factor; the ordering itself holds only the root. Records are named by
    `NodeId`s, with `Null` for the null pointer, and the per-record fields are maps keyed by
    record, so that a method's frame is this one object. The key of a record under this ordering
    is `key[x]`, compared with `<`. */
module Comparator {
  import opened TreeShape
  import opened SortedSeq
  import opened Rotation

  /** Where a new record goes: below `parent`, on the left or on the right (`parent == Null`
      when the ordering is empty). */
  datatype Hint = Hint(parent: NodeId, insertedLeft: bool)

  class Ordering {
    /** Whether equal keys are refused (an ordered-unique index) or admitted (ordered-non-unique). */
    const unique: bool
    var root: NodeId
    var links: map<NodeId, Link>
    /** The key of each record under this ordering, as the container's key extractor gives it. */
    const key: map<NodeId, int>
    var bf: map<NodeId, int>
    /** The tree the links describe. */
    ghost var tree: Tree

    /** The links form the binary tree `tree`, rooted at `root`, whose parent pointers point
        back up, with every linked record keyed. */
    ghost predicate Linked()
      reads this
    {
      && Null !in links
      && Shape(links, tree, root)
      && Parented(links, tree, Null)
      && Distinct(Inorder(tree))
      && (forall x :: x in Inorder(tree) ==> x in links && x in key)
    }

    /** The records in iteration order. */
    ghost function Elements(): seq<NodeId>
      reads this
    {
      Inorder(tree)
    }

    /** Their keys, in iteration order. */
    ghost function Keys(): (ks: seq<int>)
      reads this
      requires Linked()
      ensures |ks| == |Elements()|
    {
      KeysOf(key, Inorder(tree))
    }

    /** A search tree: keys in order, and increasing when the ordering is unique. */
    ghost predicate Valid()
      reads this
    {
      Linked() && Sorted(Keys()) && (unique ==> StrictlySorted(Keys()))
    }

    /** The record at iteration position `i`, or `Null` (the end position) past the last. */
    ghost function At(i: nat): NodeId
      reads this
    {
      if i < |Elements()| then Elements()[i] else Null
    }

    /** The last record, or `Null` when there is none. */
    ghost function Last(): NodeId
      reads this
    {
      if Elements() == [] then Null else Elements()[|Elements()| - 1]
    }

    /** The record after `x` in iteration order, or `Null` after the last. */
    ghost function Successor(x: NodeId): NodeId
      reads this
      requires x in Elements()
    {
      At(Pos(tree, x) + 1)
    }

    /** The record before `x` in iteration order, or `Null` before the first. */
    ghost function Predecessor(x: NodeId): NodeId
      reads this
      requires x in Elements()
    {
      var i := Pos(tree, x);
      if i == 0 then Null else Elements()[i - 1]
    }

    /** An empty ordering over records keyed by `key`; the root starts null. */
    constructor (unique: bool, key: map<NodeId, int>)
      ensures this.unique == unique && this.key == key
      ensures Valid() && Elements() == [] && root == Null
      ensures links == map[] && bf == map[]
    {
      this.unique := unique;
      this.key := key;
      root := Null;
      links := map[];
      bf := map[];
      tree := Nil;
    }

    /** The move constructor: the new ordering takes over `rhs`'s root, and so its tree; `rhs`
        is left with a null root, an empty ordering. */
    constructor Moved(rhs: Ordering)
      modifies rhs
      ensures unique == rhs.unique && key == rhs.key
      ensures root == old(rhs.root) && tree == old(rhs.tree)
      ensures links == old(rhs.links) && bf == old(rhs.bf)
      ensures old(rhs.Valid()) ==> Valid() && Elements() == old(rhs.Elements())
      ensures rhs.root == Null && rhs.Elements() == []
      ensures old(rhs.Linked()) ==> rhs.Valid()
    {
      unique := rhs.unique;
      key := rhs.key;
      root := rhs.root;
      links := rhs.links;
      bf := rhs.bf;
      tree := rhs.tree;
      new;
      rhs.root := Null;
      rhs.tree := Nil;
    }

    /** `curr`'s subtree occupies positions `lo` up to `hi` of the iteration order. */
    ghost predicate Spans(curr: NodeId, lo: nat, hi: nat)
      reads this
    {
      curr in Elements() && Start(tree, curr) == lo && lo + |Inorder(SubAt(tree, curr))| == hi
    }

    /** The root's subtree is the whole tree. */
    lemma RootSpans()
      requires Linked()
      ensures root != Null ==> Spans(root, 0, |Elements()|)
      ensures root == Null ==> Elements() == []
    {
      ShapeNodes(links, tree, root);
      if root != Null {
        ParentStep(links, tree, root, Null, root);
      }
    }

    /** One step down from `curr`, whose subtree occupies positions `lo` to `hi`: `curr` itself
        sits at some position `p` in between, its left subtree (if any) occupies `lo` to `p` and
        its right subtree (if any) `p + 1` to `hi`. */
    lemma Step(curr: NodeId, lo: nat, hi: nat) returns (p: nat)
      requires Linked() && Spans(curr, lo, hi)
      ensures lo <= p < hi <= |Elements()| && Pos(tree, curr) == p
      ensures curr in links && curr in key && Keys()[p] == key[curr]
      ensures links[curr].left == Null ==> p == lo
      ensures links[curr].left != Null ==> Spans(links[curr].left, lo, p)
      ensures links[curr].right == Null ==> p + 1 == hi
      ensures links[curr].right != Null ==> Spans(links[curr].right, p + 1, hi)
    {
      p := Pos(tree, curr);
      ShapeAt(links, tree, root, Null, curr);
      ChildStart(links, tree, root, curr);
      PosStart(tree, curr);
      SubAtSpan(tree, curr);
      var u := SubAt(tree, curr);
      assert Inorder(u) == Inorder(u.left) + [curr] + Inorder(u.right);
      KeyAt(key, Elements(), p);
    }

    /** A step of a search: as `Step`, and in a search tree the key at `curr`'s position is at
        most every later key and at least every earlier one. */
    lemma Descend(curr: NodeId, lo: nat, hi: nat) returns (p: nat)
      requires Valid() && Spans(curr, lo, hi)
      ensures lo <= p < hi <= |Elements()| && Pos(tree, curr) == p
      ensures curr in links && curr in key && Keys()[p] == key[curr]
      ensures links[curr].left == Null ==> p == lo
      ensures links[curr].left != Null ==> Spans(links[curr].left, lo, p)
      ensures links[curr].right == Null ==> p + 1 == hi
      ensures links[curr].right != Null ==> Spans(links[curr].right, p + 1, hi)
      ensures forall j :: p <= j < |Keys()| ==> Keys()[p] <= Keys()[j]
      ensures forall j :: 0 <= j <= p ==> Keys()[j] <= Keys()[p]
    {
      p := Step(curr, lo, hi);
      SortedAround(Keys(), p);
    }

    /** A record with key `k`, or `Null` when there is none. */
    method Find(k: int) returns (r: NodeId)
      requires Valid()
      ensures r == Null <==> k !in Keys()
      ensures r != Null ==> r in Elements() && key[r] == k
    {
      ghost var ks := Keys();
      var curr := root;
      ghost var lo: nat, hi: nat := 0, |ks|;
      RootSpans();
      while curr != Null
        invariant curr != Null ==> Spans(curr, lo, hi)
        invariant curr == Null ==> lo == hi
        invariant hi <= |ks|
        invariant forall j :: 0 <= j < lo ==> ks[j] < k
        invariant forall j :: hi <= j < |ks| ==> k < ks[j]
        decreases hi - lo
      {
        var p := Descend(curr, lo, hi);
        if k < key[curr] {
          curr, hi := links[curr].left, p;
        } else if key[curr] < k {
          curr, lo := links[curr].right, p + 1;
        } else {
          return curr;
        }
      }
      return Null;
    }

    /** The first record whose key is not less than `k`, or `Null` when there is none. */
    method LowerBound(k: int) returns (r: NodeId)
      requires Valid()
      ensures r == At(FirstAtLeast(Keys(), k))
    {
      ghost var ks := Keys();
      var curr, ret := root, Null;
      ghost var lo: nat, hi: nat := 0, |ks|;
      RootSpans();
      while curr != Null
        invariant curr != Null ==> Spans(curr, lo, hi)
        invariant curr == Null ==> lo == hi
        invariant hi <= |ks|
        invariant forall j :: 0 <= j < lo ==> ks[j] < k
        invariant hi < |ks| ==> k <= ks[hi]
        invariant ret == At(hi)
        decreases hi - lo
      {
        var p := Descend(curr, lo, hi);
        if !(key[curr] < k) {
          ret := curr;
          curr, hi := links[curr].left, p;
        } else {
          curr, lo := links[curr].right, p + 1;
        }
      }
      FirstAtLeastIs(ks, k, lo);
      return ret;
    }

    /** The first record whose key is greater than `k`, or `Null` when there is none. */
    method UpperBound(k: int) returns (r: NodeId)
      requires Valid()
      ensures r == At(FirstGreater(Keys(), k))
    {
      ghost var ks := Keys();
      var curr, ret := root, Null;
      ghost var lo: nat, hi: nat := 0, |ks|;
      RootSpans();
      while curr != Null
        invariant curr != Null ==> Spans(curr, lo, hi)
        invariant curr == Null ==> lo == hi
        invariant hi <= |ks|
        invariant forall j :: 0 <= j < lo ==> ks[j] <= k
        invariant hi < |ks| ==> k < ks[hi]
        invariant ret == At(hi)
        decreases hi - lo
      {
        var p := Descend(curr, lo, hi);
        if k < key[curr] {
          ret := curr;
          curr, hi := links[curr].left, p;
        } else {
          curr, lo := links[curr].right, p + 1;
        }
      }
      FirstGreaterIs(ks, k, lo);
      return ret;
    }

    /** The leftmost record of the subtree under `x`: the first of the stretch of the iteration
        order that this subtree occupies. */
    method TreeMin(x: NodeId) returns (r: NodeId)
      requires Linked() && x in Elements()
      ensures r in Elements() && Pos(tree, r) == Start(tree, x)
    {
      ghost var lo: nat, hi: nat := Start(tree, x), Start(tree, x) + |Inorder(SubAt(tree, x))|;
      r := x;
      ghost var p := Step(r, lo, hi);
      while links[r].left != Null
        invariant Spans(r, lo, hi) && r in links && Pos(tree, r) == p && lo <= p < hi
        invariant links[r].left == Null ==> p == lo
        invariant links[r].left != Null ==> Spans(links[r].left, lo, p)
        decreases hi - lo
      {
        r, hi := links[r].left, p;
        p := Step(r, lo, hi);
      }
    }

    /** The rightmost record of the subtree under `x`: the last of the stretch of the iteration
        order that this subtree occupies. */
    method TreeMax(x: NodeId) returns (r: NodeId)
      requires Linked() && x in Elements()
      ensures r in Elements() && Pos(tree, r) + 1 == Start(tree, x) + |Inorder(SubAt(tree, x))|
    {
      ghost var lo: nat, hi: nat := Start(tree, x), Start(tree, x) + |Inorder(SubAt(tree, x))|;
      r := x;
      ghost var p := Step(r, lo, hi);
      while links[r].right != Null
        invariant Spans(r, lo, hi) && r in links && Pos(tree, r) == p && lo <= p < hi
        invariant links[r].right == Null ==> p + 1 == hi
        invariant links[r].right != Null ==> Spans(links[r].right, p + 1, hi)
        decreases hi - lo
      {
        r, lo := links[r].right, p + 1;
        p := Step(r, lo, hi);
      }
    }

    /** The leftmost-descent loop exactly as the source writes it: it keeps stepping until the
        pointer it holds is null, and so returns null for every subtree. */
    method TreeMinAsWritten(x: NodeId) returns (r: NodeId)
      requires Linked() && x in Elements()
      ensures r == Null
    {
      ShapeAt(links, tree, root, Null, x);
      ghost var sub := SubAt(tree, x);
      r, sub := links[x].left, sub.left;
      while r != Null
        invariant Shape(links, sub, r)
        decreases sub
      {
        r, sub := links[r].left, sub.left;
      }
    }

    /** The rightmost-descent loop exactly as the source writes it: null for every subtree. */
    method TreeMaxAsWritten(x: NodeId) returns (r: NodeId)
      requires Linked() && x in Elements()
      ensures r == Null
    {
      ShapeAt(links, tree, root, Null, x);
      ghost var sub := SubAt(tree, x);
      r, sub := links[x].right, sub.right;
      while r != Null
        invariant Shape(links, sub, r)
        decreases sub
      {
        r, sub := links[r].right, sub.right;
      }
    }

    /** Whether `n` is its parent's left child; the root, whose parent is null, is not. */
    predicate IsLeftChild(n: NodeId)
      reads this
      requires n in links
    {
      var p := links[n].parent;
      p != Null && p in links && links[p].left == n
    }

    /** The test as the source writes it, which reads the left link of the parent whether or not
        there is one. */
    predicate IsLeftChildAsWritten(n: NodeId)
      reads this
      requires n in links && links[n].parent in links
    {
      links[links[n].parent].left == n
    }

    /** The successor of `x` in iteration order: the leftmost record of its right subtree, or else
        the parent of the first ancestor (from `x` up) that is a left child. */
    method TreeNext(x: NodeId) returns (r: NodeId)
      requires Linked() && x in Elements()
      ensures r == Successor(x)
      ensures r == Null <==> Pos(tree, x) + 1 == |Elements()|
      ensures r != Null ==> r in Elements() && Pos(tree, r) == Pos(tree, x) + 1
    {
      ChildStart(links, tree, root, x);
      if links[x].right != Null {
        r := TreeMin(links[x].right);
        assert Elements()[Pos(tree, x) + 1] == r;
        return;
      }
      NoRightChild(x);
      SubAtSpan(tree, x);
      var node := x;
      while node != Null && !IsLeftChild(node)
        invariant node != Null ==> node in Elements() && node in links
        invariant node != Null ==> |Inorder(SubAt(tree, node))| <= |Elements()|
        invariant node != Null ==> Pos(tree, x) + 1 == Start(tree, node) + |Inorder(SubAt(tree, node))|
        invariant node == Null ==> Pos(tree, x) + 1 == |Elements()|
        decreases if node == Null then 0 else |Elements()| + 1 - |Inorder(SubAt(tree, node))|
      {
        NextClimb(x, node);
        node := links[node].parent;
      }
      if node != Null {
        NextAtLeftChild(x, node);
        r := links[node].parent;
      } else {
        r := Null;
      }
    }

    /** Without a right child, `x` ends the stretch its subtree occupies. */
    lemma NoRightChild(x: NodeId)
      requires Linked() && x in Elements() && x in links && links[x].right == Null
      ensures Pos(tree, x) + 1 == Start(tree, x) + |Inorder(SubAt(tree, x))|
    {
      ShapeAt(links, tree, root, Null, x);
      PosStart(tree, x);
      var u := SubAt(tree, x);
      assert u.right == Nil;
      assert Inorder(u) == Inorder(u.left) + [x];
    }

    /** The end of the climb in `TreeNext`: when `x` is the last record under a left child, the
        parent of that child is the successor of `x`. */
    lemma NextAtLeftChild(x: NodeId, node: NodeId)
      requires Linked() && x in Elements() && node in Elements() && node in links && IsLeftChild(node)
      requires Pos(tree, x) + 1 == Start(tree, node) + |Inorder(SubAt(tree, node))|
      ensures var q := links[node].parent;
        Successor(x) == q && q != Null && q in Elements() && Pos(tree, q) == Pos(tree, x) + 1
    {
      ParentSpan(links, tree, root, Null, node);
      assert Pos(tree, links[node].parent) == Pos(tree, x) + 1;
    }

    /** One step of the climb in `TreeNext`: when `x` is the last record under `node`, which is
        not a left child, `x` is also the last record under the parent, or the last of all at
        the root; the subtree climbed to is larger. */
    lemma NextClimb(x: NodeId, node: NodeId)
      requires Linked() && x in Elements() && node in Elements() && node in links
      requires !IsLeftChild(node)
      requires Pos(tree, x) + 1 == Start(tree, node) + |Inorder(SubAt(tree, node))|
      ensures var q := links[node].parent;
        && (q == Null ==> Pos(tree, x) + 1 == |Elements()|)
        && (q != Null ==>
          && q in Elements()
          && Pos(tree, x) + 1 == Start(tree, q) + |Inorder(SubAt(tree, q))|
          && |Inorder(SubAt(tree, node))| < |Inorder(SubAt(tree, q))| <= |Elements()|)
    {
      if node == root {
        ParentStep(links, tree, root, Null, node);
      } else {
        ParentSpan(links, tree, root, Null, node);
      }
    }

    /** The predecessor of `x` in iteration order: the rightmost record of its left subtree, or
        else the parent of the first ancestor (from `x` up) that is not a left child. */
    method TreePrev(x: NodeId) returns (r: NodeId)
      requires Linked() && x in Elements()
      ensures r == Predecessor(x)
      ensures r == Null <==> Pos(tree, x) == 0
      ensures r != Null ==> r in Elements() && Pos(tree, r) + 1 == Pos(tree, x)
    {
      ChildStart(links, tree, root, x);
      if links[x].left != Null {
        PosStart(tree, x);
        assert Start(tree, links[x].left) + |Inorder(SubAt(tree, links[x].left))| == Pos(tree, x);
        r := TreeMax(links[x].left);
        assert Elements()[Pos(tree, x) - 1] == r;
        return;
      }
      NoLeftChild(x);
      SubAtSpan(tree, x);
      var node := x;
      // The root is not a left child, so the climb stops there at the latest and `node` never
      // becomes null.
      while IsLeftChild(node)
        invariant node in Elements() && node in links && Pos(tree, x) == Start(tree, node)
        invariant |Inorder(SubAt(tree, node))| <= |Elements()|
        decreases |Elements()| - |Inorder(SubAt(tree, node))|
      {
        PrevClimb(x, node);
        node := links[node].parent;
      }
      PrevAtRightChild(x, node);
      r := links[node].parent;
    }

    /** Without a left child, `x` starts the stretch its subtree occupies. */
    lemma NoLeftChild(x: NodeId)
      requires Linked() && x in Elements() && x in links && links[x].left == Null
      ensures Pos(tree, x) == Start(tree, x)
    {
      ShapeAt(links, tree, root, Null, x);
      PosStart(tree, x);
      assert SubAt(tree, x).left == Nil;
    }

    /** The end of the climb in `TreePrev`: when `x` is the first record under `node`, which is
        not a left child, the parent of `node` is the predecessor of `x` (`Null` at the root). */
    lemma PrevAtRightChild(x: NodeId, node: NodeId)
      requires Linked() && x in Elements() && node in Elements() && node in links
      requires !IsLeftChild(node) && Pos(tree, x) == Start(tree, node)
      ensures var q := links[node].parent;
        && Predecessor(x) == q
        && (q == Null <==> Pos(tree, x) == 0)
        && (q != Null ==> q in Elements() && Pos(tree, q) + 1 == Pos(tree, x))
    {
      if node == root {
        ParentStep(links, tree, root, Null, node);
      } else {
        ParentSpan(links, tree, root, Null, node);
        var q := links[node].parent;
        assert q != Null && links[q].left != node;
        assert Pos(tree, q) + 1 == Pos(tree, x);
        assert Elements()[Pos(tree, x) - 1] == q;
      }
    }

    /** One step of the climb in `TreePrev`: when `x` is the first record under `node`, a left
        child, `x` is also the first record under the parent, whose subtree is larger. */
    lemma PrevClimb(x: NodeId, node: NodeId)
      requires Linked() && x in Elements() && node in Elements() && node in links
      requires IsLeftChild(node) && Pos(tree, x) == Start(tree, node)
      ensures var q := links[node].parent;
        && q in Elements() && q in links
        && Pos(tree, x) == Start(tree, q)
        && |Inorder(SubAt(tree, node))| < |Inorder(SubAt(tree, q))| <= |Elements()|
    {
      ParentSpan(links, tree, root, Null, node);
    }

    /** How many records have key `k`: a descent to the first match found, then, when equal keys
        are admitted, walks over the equal neighbours before and after it. */
    method Count(k: int) returns (c: nat)
      requires Valid()
      ensures c == Occurrences(Keys(), k)
    {
      ghost var ks := Keys();
      // The descent is the one `Find` makes.
      var found := Find(k);
      if found == Null {
        OccurrencesZero(ks, k);
        return 0;
      }
      c := 1;
      if unique {
        OccurrencesZero(ks, k);
        OccurrencesAtMostOne(ks, k);
        return;
      }
      var before := CountBefore(found);
      var after := CountAfter(found);
      c := c + before + after;
      OccurrencesRun(ks, k);
    }

    /** The record at position `i`: its key is the `i`-th key, and it sits at position `i`. */
    lemma RecordAt(i: nat)
      requires Linked() && i < |Elements()|
      ensures Elements()[i] != Null && Elements()[i] in key
      ensures Keys()[i] == key[Elements()[i]] && Pos(tree, Elements()[i]) == i
    {
      KeyAt(key, Elements(), i);
      PosAt(tree, i);
    }

    /** The walk of `Count` back from a match: how many records before `found` share its key. */
    method CountBefore(found: NodeId) returns (n: nat)
      requires Valid() && found in Elements()
      ensures Pos(tree, found) - n == FirstAtLeast(Keys(), key[found])
    {
      ghost var s, ks := Elements(), Keys();
      var k := key[found];
      ghost var i := Pos(tree, found);
      RecordAt(i);
      FirstAtLeastVs(ks, k, i);
      n := 0;
      var curr := TreePrev(found);
      ghost var j: int := i - 1;
      while curr != Null
        invariant -1 <= j < i
        invariant curr != Null ==> curr in s && Pos(tree, curr) == j
        invariant curr == Null ==> j == -1
        invariant FirstAtLeast(ks, k) <= j + 1
        invariant n == i - 1 - j
        decreases j + 1
      {
        RecordAt(j);
        FirstAtLeastVs(ks, k, j);
        if key[curr] < k {
          break;
        }
        n := n + 1;
        curr := TreePrev(curr);
        j := j - 1;
      }
    }

    /** The walk of `Count` forward from a match: how many records after `found` share its key. */
    method CountAfter(found: NodeId) returns (n: nat)
      requires Valid() && found in Elements()
      ensures Pos(tree, found) + 1 + n == FirstGreater(Keys(), key[found])
    {
      ghost var s, ks := Elements(), Keys();
      var k := key[found];
      ghost var i := Pos(tree, found);
      RecordAt(i);
      FirstGreaterVs(ks, k, i);
      n := 0;
      var curr := TreeNext(found);
      ghost var h: nat := i + 1;
      while curr != Null
        invariant i < h <= |s|
        invariant curr != Null ==> curr in s && Pos(tree, curr) == h
        invariant curr == Null ==> h == |s|
        invariant h <= FirstGreater(ks, k)
        invariant n == h - i - 1
        decreases |s| - h
      {
        RecordAt(h);
        FirstGreaterVs(ks, k, h);
        if k < key[curr] {
          break;
        }
        n := n + 1;
        curr := TreeNext(curr);
        h := h + 1;
      }
    }

    /** `h` says where a record with key `k` belongs: below `h.parent`, in an empty child slot on
        the recorded side, at the in-order gap just after every key not greater than `k`; or at
        the root when the ordering is empty. */
    ghost predicate HintFits(h: Hint, k: int)
      reads this
      requires Linked()
    {
      if h.parent == Null then Elements() == []
      else
        && h.parent in Elements()
        && (if h.insertedLeft then links[h.parent].left == Null else links[h.parent].right == Null)
        && Pos(tree, h.parent) + (if h.insertedLeft then 0 else 1) == FirstGreater(Keys(), k)
    }

    /** The first phase of an insertion, which changes nothing: for a unique ordering that already
        holds a record with `n`'s key, that record; otherwise `Null`, and a hint saying where `n`
        belongs. */
    method PreinsertNode(n: NodeId, hints: Hint) returns (conflict: NodeId, hints': Hint)
      requires Valid() && n in key
      ensures unique && key[n] in Keys() ==>
        conflict in Elements() && key[conflict] == key[n] && hints' == hints
      ensures !(unique && key[n] in Keys()) ==> conflict == Null && HintFits(hints', key[n])
    {
      if unique {
        conflict, hints' := UniqueSlot(key[n]);
        if conflict != Null {
          hints' := hints;
        }
      } else {
        conflict := Null;
        hints' := LeafSlot(key[n]);
      }
    }

    /** The descent of a unique ordering: stops at a record with key `k`, or else reports the
        empty slot where `k` belongs. */
    method UniqueSlot(k: int) returns (conflict: NodeId, h: Hint)
      requires Valid() && unique
      ensures k in Keys() ==> conflict in Elements() && key[conflict] == k
      ensures k !in Keys() ==> conflict == Null && HintFits(h, k)
    {
      ghost var ks := Keys();
      var parent, curr := Null, root;
      var insertedLeft := false;
      ghost var lo: nat, hi: nat := 0, |ks|;
      RootSpans();
      while curr != Null
        invariant curr != Null ==> Spans(curr, lo, hi)
        invariant curr == Null ==> lo == hi
        invariant hi <= |ks|
        invariant forall j :: 0 <= j < lo ==> ks[j] < k
        invariant forall j :: hi <= j < |ks| ==> k < ks[j]
        invariant parent == Null ==> lo == 0 && hi == |ks|
        invariant parent != Null ==> parent in Elements() && parent in links
        invariant parent != Null && insertedLeft ==> links[parent].left == curr && hi == Pos(tree, parent)
        invariant parent != Null && !insertedLeft ==> links[parent].right == curr && lo == Pos(tree, parent) + 1
        decreases hi - lo
      {
        var p := Descend(curr, lo, hi);
        parent := curr;
        if k < key[curr] {
          curr, hi := links[curr].left, p;
          insertedLeft := true;
        } else if key[curr] < k {
          curr, lo := links[curr].right, p + 1;
          insertedLeft := false;
        } else {
          return curr, Hint(parent, insertedLeft);
        }
      }
      assert forall j :: 0 <= j < |ks| ==> ks[j] != k;
      FirstGreaterIs(ks, k, lo);
      return Null, Hint(parent, insertedLeft);
    }

    /** The descent that admits equal keys, going right on equality: the empty slot where `k`
        belongs, after every key not greater than it. */
    method LeafSlot(k: int) returns (h: Hint)
      requires Valid()
      ensures HintFits(h, k)
    {
      ghost var ks := Keys();
      var parent, curr := Null, root;
      var insertedLeft := false;
      ghost var lo: nat, hi: nat := 0, |ks|;
      RootSpans();
      while curr != Null
        invariant curr != Null ==> Spans(curr, lo, hi)
        invariant curr == Null ==> lo == hi
        invariant hi <= |ks|
        invariant forall j :: 0 <= j < lo ==> ks[j] <= k
        invariant forall j :: hi <= j < |ks| ==> k < ks[j]
        invariant parent == Null ==> lo == 0 && hi == |ks|
        invariant parent != Null ==> parent in Elements() && parent in links
        invariant parent != Null && insertedLeft ==> links[parent].left == curr && hi == Pos(tree, parent)
        invariant parent != Null && !insertedLeft ==> links[parent].right == curr && lo == Pos(tree, parent) + 1
        decreases hi - lo
      {
        var p := Descend(curr, lo, hi);
        parent := curr;
        if k < key[curr] {
          curr, hi := links[curr].left, p;
          insertedLeft := true;
        } else {
          curr, lo := links[curr].right, p + 1;
          insertedLeft := false;
        }
      }
      FirstGreaterIs(ks, k, lo);
      return Hint(parent, insertedLeft);
    }

    /** Putting `n` at the gap after every key not greater than its own keeps the keys in order
        (increasing, when they were and `n`'s key is new). */
    lemma InsertKeys(n: NodeId)
      requires Valid() && n in key
      ensures var g := FirstGreater(Keys(), key[n]);
        && g <= |Elements()|
        && (forall x :: x in InsertAt(Elements(), g, n) ==> x in key)
        && KeysOf(key, InsertAt(Elements(), g, n)) == Keys()[..g] + [key[n]] + Keys()[g..]
        && Sorted(Keys()[..g] + [key[n]] + Keys()[g..])
        && (unique && key[n] !in Keys() ==> StrictlySorted(Keys()[..g] + [key[n]] + Keys()[g..]))
    {
      var g := FirstGreater(Keys(), key[n]);
      InsertSorted(Keys(), key[n], g);
      KeysOfInsertAt(key, Elements(), g, n);
    }

    /** Fields set to links `l`, tree `t` and root `r` that spell out a tree whose in-order
        sequence is `s`, with keys `ks`. */
    lemma Relinked(l: map<NodeId, Link>, t: Tree, r: NodeId, s: seq<NodeId>, ks: seq<int>)
      requires links == l && tree == t && root == r
      requires Null !in l && Shape(l, t, r) && Parented(l, t, Null)
      requires Inorder(t) == s && Distinct(s)
      requires forall x :: x in s ==> x in l && x in key
      requires KeysOf(key, s) == ks
      ensures Linked() && Elements() == s && Keys() == ks
    {
    }

    /** The second phase of an insertion: `n` becomes a leaf in the slot the hint names, with no
        children, balance factor 0 and the hinted parent, or the root of an empty ordering. It
        lands in iteration order after every record whose key is not greater than its own. */
    method InsertNode(n: NodeId, h: Hint)
      requires Valid() && n != Null && n in key && n !in Elements() && HintFits(h, key[n])
      modifies this
      ensures bf == old(bf)[n := 0]
      ensures Linked() && Sorted(Keys())
      ensures !unique || key[n] !in old(Keys()) ==> Valid()
      ensures Elements() == InsertAt(old(Elements()), FirstGreater(old(Keys()), key[n]), n)
      ensures var g := FirstGreater(old(Keys()), key[n]);
        Keys() == old(Keys())[..g] + [key[n]] + old(Keys())[g..]
      ensures h.parent == Null ==> root == n && links == old(links)[n := Link(Null, Null, Null)]
      ensures h.parent != Null ==>
        root == old(root) && links == Attach(old(links), h.parent, h.insertedLeft, n)
    {
      ghost var g := FirstGreater(Keys(), key[n]);
      ghost var s' := InsertAt(Elements(), g, n);
      ghost var ks' := Keys()[..g] + [key[n]] + Keys()[g..];
      InsertKeys(n);
      var parent := h.parent;
      bf := bf[n := 0];
      if parent == Null {
        SingleLinked(links, n);
        links := links[n := Link(Null, Null, Null)];
        root := n;
        tree := Node(Nil, n, Nil);
      } else {
        GraftLinked(links, tree, root, parent, h.insertedLeft, n);
        GraftMembers(links, key, Elements(), parent, h.insertedLeft, n, g);
        // `n` gets no children and parent `parent`, and fills the hinted slot of `parent`.
        links := Attach(links, parent, h.insertedLeft, n);
        tree := Graft(tree, parent, h.insertedLeft, n);
      }
      Relinked(links, tree, root, s', ks');
    }

    /** The insertion that links without a preceding uniqueness check: the descent that sends
        equal keys right ends at the slot `h`, and `n` is linked there as `InsertNode` links it:
        no children, balance factor 0, the descent's last node as parent, and that node's child
        on the recorded side; no other link changes. */
    method InsertNodeDirect(n: NodeId) returns (ghost h: Hint)
      requires Valid() && n != Null && n in key && n !in Elements()
      modifies this
      ensures old(HintFits(h, key[n]))
      ensures bf == old(bf)[n := 0]
      ensures Linked() && Sorted(Keys())
      ensures !unique || key[n] !in old(Keys()) ==> Valid()
      ensures Elements() == InsertAt(old(Elements()), FirstGreater(old(Keys()), key[n]), n)
      ensures var g := FirstGreater(old(Keys()), key[n]);
        Keys() == old(Keys())[..g] + [key[n]] + old(Keys())[g..]
      ensures old(root) == Null ==> root == n && links == old(links)[n := Link(Null, Null, Null)]
      ensures old(root) != Null ==>
        root == old(root) && links == Attach(old(links), h.parent, h.insertedLeft, n)
    {
      var slot := LeafSlot(key[n]);
      h := slot;
      RootSpans();
      InsertNode(n, slot);
    }

    /** Right rotation at `v`, as the ordering performs it: `w`, the left child of `v`, takes
        `v` as its right child, and `v` takes `w` as its parent and `w`'s old right subtree as
        its left one. Balance factors, the root and `v`'s old parent are left alone. The child
        links of the rotated subtree come out right, but `w` and `v` name each other as parent. */
    method RotateRight(v: NodeId)
      requires Linked() && v in Elements() && links[v].left != Null
      modifies this
      ensures root == old(root) && bf == old(bf) && tree == old(tree)
      ensures old(SubAt(tree, v).left.Node? && links[v].left in links &&
        (links[links[v].left].right != Null ==> links[links[v].left].right in links))
      ensures links == RotateRightLinks(old(links), v)
      ensures var w := old(links[v].left);
        Shape(links, RotatedRight(old(SubAt(tree, v))), w) && links[w].parent == v && links[v].parent == w
    {
      RotateRightAsWritten(links, tree, root, v);
      var w := links[v].left;
      var b := links[w].right;
      links := links[w := links[w].(right := v)];
      links := links[v := links[v].(parent := w)];
      links := links[v := links[v].(left := b)];
      if b != Null {
        links := links[b := links[b].(parent := v)];
      }
    }

    /** Left rotation at `w`, as the ordering performs it, the mirror image of `RotateRight`. */
    method RotateLeft(w: NodeId)
      requires Linked() && w in Elements() && links[w].right != Null
      modifies this
      ensures root == old(root) && bf == old(bf) && tree == old(tree)
      ensures old(SubAt(tree, w).right.Node? && links[w].right in links &&
        (links[links[w].right].left != Null ==> links[links[w].right].left in links))
      ensures links == RotateLeftLinks(old(links), w)
      ensures var v := old(links[w].right);
        Shape(links, RotatedLeft(old(SubAt(tree, w))), v) && links[v].parent == w && links[w].parent == v
    {
      RotateLeftAsWritten(links, tree, root, w);
      var v := links[w].right;
      var b := links[v].left;
      links := links[v := links[v].(left := w)];
      links := links[w := links[w].(parent := v)];
      links := links[w := links[w].(right := b)];
      if b != Null {
        links := links[b := links[b].(parent := w)];
      }
    }

    /** Right rotation at `v` that also relinks its surroundings: `w` takes over `v`'s parent,
        and that parent's child pointer, or the root when `v` was the root, names `w`. The
        ordering stays linked, its tree is rotated at `v`, and iteration order (so also search
        order) is unchanged. */
    method RotateRightFixed(v: NodeId)
      requires Linked() && v in Elements() && links[v].left != Null
      modifies this
      ensures bf == old(bf)
      ensures old(SubAt(tree, v).left.Node?) && tree == RotateRightAt(old(tree), v)
      ensures root == if old(links[v].parent) == Null then old(links[v].left) else old(root)
      ensures Linked() && Elements() == old(Elements()) && Keys() == old(Keys())
      ensures old(Valid()) ==> Valid()
    {
      RotateRightKeepsLinks(links, tree, root, v);
      ghost var t' := RotateRightAt(tree, v);
      ghost var s := Elements();
      ghost var ks := Keys();
      var l := links;
      var w := l[v].left;
      var g := l[v].parent;
      var b := l[w].right;
      l := l[w := l[w].(right := v)];
      l := l[v := l[v].(parent := w)];
      l := l[v := l[v].(left := b)];
      if b != Null {
        l := l[b := l[b].(parent := v)];
      }
      // The fix: `w` takes over `v`'s place below `g`.
      l := l[w := l[w].(parent := g)];
      if g == Null {
        root := w;
      } else if l[g].left == v {
        l := l[g := l[g].(left := w)];
      } else {
        l := l[g := l[g].(right := w)];
      }
      links := l;
      tree := t';
      Relinked(links, tree, root, s, ks);
    }

    /** Left rotation at `w` that also relinks its surroundings, the mirror image of
        `RotateRightFixed`. */
    method RotateLeftFixed(w: NodeId)
      requires Linked() && w in Elements() && links[w].right != Null
      modifies this
      ensures bf == old(bf)
      ensures old(SubAt(tree, w).right.Node?) && tree == RotateLeftAt(old(tree), w)
      ensures root == if old(links[w].parent) == Null then old(links[w].right) else old(root)
      ensures Linked() && Elements() == old(Elements()) && Keys() == old(Keys())
      ensures old(Valid()) ==> Valid()
    {
      RotateLeftKeepsLinks(links, tree, root, w);
      ghost var t' := RotateLeftAt(tree, w);
      ghost var s := Elements();
      ghost var ks := Keys();
      var l := links;
      var v := l[w].right;
      var g := l[w].parent;
      var b := l[v].left;
      l := l[v := l[v].(left := w)];
      l := l[w := l[w].(parent := v)];
      l := l[w := l[w].(right := b)];
      if b != Null {
        l := l[b := l[b].(parent := w)];
      }
      // The fix: `v` takes over `w`'s place below `g`.
      l := l[v := l[v].(parent := g)];
      if g == Null {
        root := v;
      } else if l[g].left == w {
        l := l[g := l[g].(left := v)];
      } else {
        l := l[g := l[g].(right := v)];
      }
      links := l;
      tree := t';
      Relinked(links, tree, root, s, ks);
    }

    /** Unlinking a record from the tree, as the source has it: a stub that unlinks nothing and
        reports an empty tree. */
    method TreeRemove(n: NodeId) returns (newRoot: NodeId)
      ensures newRoot == Null
    {
      newRoot := Null;
    }

    /** After `n`'s key was changed in place, decide whether `n` is out of order by comparing its
        key with its neighbours' only: out of order when the next record's key is less than
        `n`'s or `n`'s is less than the previous record's. Such a record is taken out: its links
        and balance factor are reset, and the root becomes what `TreeRemove` returns. */
    method EraseIfModified(n: NodeId) returns (resort: bool)
      requires Linked() && n in Elements() && SortedExcept(Keys(), Pos(tree, n))
      modifies this
      ensures resort <==> old(
        || (Successor(n) != Null && Successor(n) in key && key[Successor(n)] < key[n])
        || (Predecessor(n) != Null && Predecessor(n) in key && key[n] < key[Predecessor(n)]))
      ensures resort <==> !old(Sorted(Keys()))
      ensures !resort ==> unchanged(this)
      ensures resort ==> root == Null && tree == Nil && Linked()
      ensures resort ==> links == old(links)[n := Link(Null, Null, Null)] && bf == old(bf)[n := 0]
    {
      RootSpans();
      var first := TreeMin(root);
      var last := TreeMax(root);
      var prev, next := Null, Null;
      if n != first {
        prev := TreePrev(n);
      }
      if n != last {
        next := TreeNext(n);
      }
      NeighboursOutOfOrder(n, prev, next);
      var k := key[n];
      resort := (next != Null && key[next] < k) || (prev != Null && k < key[prev]);
      if resort {
        root := TreeRemove(n);
        tree := Nil;
        links := links[n := Link(Null, Null, Null)];
        bf := bf[n := 0];
      }
    }

    /** When only `n`'s key may be out of place, comparing it with its neighbours' keys decides
        whether the keys are in order. */
    lemma NeighboursOutOfOrder(n: NodeId, prev: NodeId, next: NodeId)
      requires Linked() && n in Elements() && SortedExcept(Keys(), Pos(tree, n))
      requires prev == Predecessor(n) && next == Successor(n)
      ensures prev != Null ==> prev in key
      ensures next != Null ==> next in key
      ensures (next != Null && key[next] < key[n]) || (prev != Null && key[n] < key[prev])
        <==> !Sorted(Keys())
    {
      var i := Pos(tree, n);
      RecordAt(i);
      if i > 0 {
        RecordAt(i - 1);
      }
      if i + 1 < |Elements()| {
        RecordAt(i + 1);
      }
      NeighboursDecide(Keys(), i);
    }

    /** The first position: the first record, or the end position when there is none. */
    method Begin() returns (r: NodeId)
      requires Linked()
      ensures r == At(0)
      ensures r == Null <==> Elements() == []
    {
      RootSpans();
      if root == Null {
        return Null;
      }
      r := TreeMin(root);
    }

    /** The end position, one past the last record. */
    function End(): (r: NodeId)
      ensures r == At(|Elements()|)
    {
      Null
    }

    /** The root has no parent, so it is not a left child, and the test as written would read
        the links of the null pointer there. */
    lemma RootIsNotALeftChild()
      requires Linked() && root != Null
      ensures root in links && links[root].parent == Null && !IsLeftChild(root)
      ensures links[root].parent !in links
    {
      ShapeNodes(links, tree, root);
      ParentStep(links, tree, root, Null, root);
    }

    /** Stepping forward and then back, or back and then forward, returns to the same record. */
    lemma StepsUndo(x: NodeId)
      requires Linked() && x in Elements()
      ensures Successor(x) != Null ==>
        Successor(x) in Elements() && Predecessor(Successor(x)) == x
      ensures Predecessor(x) != Null ==>
        Predecessor(x) in Elements() && Successor(Predecessor(x)) == x
    {
      var i := Pos(tree, x);
      ShapeNodes(links, tree, root);
      if i + 1 < |Elements()| {
        PosAt(tree, i + 1);
      }
      if i > 0 {
        PosAt(tree, i - 1);
      }
    }
  }

  /** A position in an ordering: a record, or `Null` for the end position. */
  class Iterator {
    const owner: Ordering
    var node: NodeId

    constructor (owner: Ordering, node: NodeId)
      ensures this.owner == owner && this.node == node
    {
      this.owner := owner;
      this.node := node;
    }

    /** `++`: the next record in iteration order, or the end position after the last. */
    method Increment()
      requires owner.Linked() && node in owner.Elements()
      modifies this
      ensures node == owner.Successor(old(node))
      ensures node == owner.At(Pos(owner.tree, old(node)) + 1)
    {
      var next := owner.TreeNext(node);
      if next != Null {
        node := next;
      } else {
        node := Null;
      }
    }

    /** `--`: the previous record in iteration order, or the end position before the first;
        from the end position, the last record (the end position again when there is none). */
    method Decrement()
      requires owner.Linked() && (node == Null || node in owner.Elements())
      modifies this
      ensures old(node) != Null ==> node == owner.Predecessor(old(node))
      ensures old(node) == Null ==> node == owner.Last()
    {
      if node != Null {
        var prev := owner.TreePrev(node);
        if prev != Null {
          node := prev;
        } else {
          node := Null;
        }
      } else {
        owner.RootSpans();
        if owner.root != Null {
          node := owner.TreeMax(owner.root);
        } else {
          node := Null;
        }
      }
    }

    /** Post-increment: steps forward and returns the position before the step. */
    method PostIncrement() returns (before: NodeId)
      requires owner.Linked() && node in owner.Elements()
      modifies this
      ensures before == old(node) && node == owner.Successor(before)
    {
      before := node;
      Increment();
    }

    /** Post-decrement: steps back and returns the position before the step. */
    method PostDecrement() returns (before: NodeId)
      requires owner.Linked() && (node == Null || node in owner.Elements())
      modifies this
      ensures before == old(node)
      ensures before != Null ==> node == owner.Predecessor(before)
      ensures before == Null ==> node == owner.Last()
    {
      before := node;
      Decrement();
    }
  }
}
