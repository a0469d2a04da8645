/** Red-black tree of src/nxt_rbtree.c: nodes relinked in place around one shared sentinel. */
module RbTree {
  import Pow2

  datatype Color = Black | Red

  /** A tree node, or the sentinel.  Its key stands for what the comparison callback reads. */
  class Node {
    const key: int
    var left: Node
    var right: Node
    var parent: Node
    var color: Color

    // Position in the in-order sequence: the subtree of this node is the slice lo..hi, the node itself is at idx.
    ghost var lo: int
    ghost var idx: int
    ghost var hi: int
    // Black nodes on any path from this node down to the sentinel.
    ghost var bh: nat

    constructor (key: int)
      ensures this.key == key
    {
      this.key := key;
      left, right, parent, color := this, this, this, Black;
    }
  }

  ghost predicate Sorted(s: seq<Node>) {
    forall i, j :: 0 <= i < j < |s| ==> s[i].key <= s[j].key
  }

  /** The sentinel is every leaf and also the root's parent: its left child is the root and its
      right field holds the comparison callback, which no operation may overwrite. */
  class Tree {
    const sentinel: Node
    const compare: Node
    ghost var nodes: set<Node>
    ghost var S: seq<Node>

    ghost predicate Indexed()
      reads this, nodes`lo, nodes`idx, nodes`hi
    {
      && sentinel !in nodes
      && (forall i {:trigger S[i]} :: 0 <= i < |S| ==> S[i] in nodes && S[i].idx == i)
      && (forall n {:trigger n.idx} :: n in nodes ==> 0 <= n.lo <= n.idx < n.hi <= |S| && S[n.idx] == n)
    }

    ghost predicate Lefts()
      reads this, nodes`left, nodes`parent, nodes`lo, nodes`idx, nodes`hi
    {
      forall n {:trigger n.left} :: n in nodes ==>
        if n.left == sentinel then n.lo == n.idx
        else n.left in nodes && n.left.parent == n && n.left.lo == n.lo && n.left.hi == n.idx
    }

    ghost predicate Rights()
      reads this, nodes`right, nodes`parent, nodes`lo, nodes`idx, nodes`hi
    {
      forall n {:trigger n.right} :: n in nodes ==>
        if n.right == sentinel then n.hi == n.idx + 1
        else n.right in nodes && n.right.parent == n && n.right.lo == n.idx + 1 && n.right.hi == n.hi
    }

    ghost predicate Parents()
      reads this, nodes`left, nodes`right, nodes`parent, nodes`lo, nodes`hi, sentinel`left, sentinel`right
    {
      && sentinel.right == compare
      && (forall n {:trigger n.parent} :: n in nodes ==>
            if n.parent == sentinel then sentinel.left == n
            else n.parent in nodes && (n.parent.left == n || n.parent.right == n))
      && (if sentinel.left == sentinel then S == []
          else sentinel.left in nodes && sentinel.left.parent == sentinel
               && sentinel.left.lo == 0 && sentinel.left.hi == |S|)
    }

    /** The links form one binary tree whose in-order sequence is S, with consistent parent links. */
    ghost predicate Linked()
      reads this, nodes`left, nodes`right, nodes`parent, nodes`lo, nodes`idx, nodes`hi, sentinel`left, sentinel`right
    {
      Indexed() && Lefts() && Rights() && Parents()
    }

    ghost predicate Balanced(n: Node)
      reads n, n.left`bh, n.right`bh
    {
      n.left.bh == n.right.bh && n.bh == n.left.bh + (if n.color == Black then 1 else 0)
    }

    // Equal black heights everywhere but at the given nodes (the sentinel stands for no exception).
    ghost predicate HeightsBut(a: Node, b: Node, e: Node)
      requires Linked()
      reads this, nodes, sentinel`bh, sentinel`left, sentinel`right
    {
      && sentinel.bh == 0
      && (forall n {:trigger Balanced(n)} :: n in nodes && n != a && n != b && n != e ==> Balanced(n))
    }

    ghost predicate OkRed(n: Node, e: Node, k: Node)
      reads n, n.parent`color
    {
      n.color == Red ==> n == e || n.parent == k || n.parent.color == Black
    }

    // No red node has a red parent, but for node e and the children of k.
    ghost predicate NoRedRed(e: Node, k: Node)
      requires Linked()
      reads this, nodes, sentinel`color, sentinel`left, sentinel`right
    {
      sentinel.color == Black && forall n {:trigger OkRed(n, e, k)} :: n in nodes ==> OkRed(n, e, k)
    }

    // A color exception may be dropped when it is fine by itself, and any may be added.
    lemma Recast(e: Node, k: Node, e': Node, k': Node)
      requires Linked() && NoRedRed(e, k)
      requires e == e' || (e in nodes ==> OkRed(e, e', k'))
      requires k == k' || k !in nodes || k.color == Black
      ensures NoRedRed(e', k')
    {
      forall n | n in nodes
        ensures OkRed(n, e', k')
      {
        assert OkRed(n, e, k);
      }
    }

    ghost predicate RedBlack()
      requires Linked()
      reads this, nodes, sentinel`bh, sentinel`color, sentinel`left, sentinel`right
    {
      && HeightsBut(sentinel, sentinel, sentinel)
      && NoRedRed(sentinel, sentinel)
      && (sentinel.left in nodes ==> sentinel.left.color == Black)
    }

    ghost predicate Valid()
      reads this, nodes, sentinel`bh, sentinel`color, sentinel`left, sentinel`right
    {
      Linked() && RedBlack() && Sorted(S)
    }

    constructor (compare: Node)
      ensures Valid() && S == [] && nodes == {} && this.compare == compare && fresh(sentinel)
    {
      var s := new Node(0);
      s.left, s.right, s.color, s.bh := s, compare, Black, 0;
      sentinel, this.compare, nodes, S := s, compare, {}, [];
    }

    // n is unchanged, but for its parent or its children.
    twostate predicate SameBut(n: Node, parent: bool, children: bool)
      reads n
    {
      && (children || (n.left == old(n.left) && n.right == old(n.right)))
      && (parent || n.parent == old(n.parent))
      && n.lo == old(n.lo) && n.idx == old(n.idx) && n.hi == old(n.hi) && n.color == old(n.color) && n.bh == old(n.bh)
    }

    // Only x and its child y have another color.
    twostate predicate Recolored(x: Node, new y: Node)
      reads nodes, this
    {
      && x in nodes && y in nodes && nodes == old(nodes) && S == old(S)
      && (y == x.left || y == x.right)
      && (forall n {:trigger n in nodes} :: n in nodes ==>
            n.left == old(n.left) && n.right == old(n.right) && n.parent == old(n.parent) && n.bh == old(n.bh)
            && (n == x || n == y || n.color == old(n.color)))
    }

    twostate lemma RecoloredHeights(x: Node, new y: Node, new e: Node)
      requires old(Linked()) && Linked() && Recolored(x, y)
      requires old(allocated(e)) && old(allocated(y)) && old(HeightsBut(x, y, e)) && sentinel.bh == 0
      ensures HeightsBut(x, y, e)
    {
      forall n | n in nodes && n != x && n != y && n != e
        ensures Balanced(n)
      {
        assert old(Balanced(n));
      }
    }

    twostate lemma RecoloredColors(x: Node, new y: Node, new r: Node, new r': Node)
      requires old(Linked()) && Linked() && Recolored(x, y)
      requires old(allocated(r)) && old(NoRedRed(r, sentinel)) && sentinel.color == Black
      requires r == r' || r in {x, y, x.left, x.right, y.left, y.right, sentinel}
      requires OkRed(x, r', sentinel) && OkRed(y, r', sentinel)
      requires x.left in nodes ==> OkRed(x.left, r', sentinel)
      requires x.right in nodes ==> OkRed(x.right, r', sentinel)
      requires y.left in nodes ==> OkRed(y.left, r', sentinel)
      requires y.right in nodes ==> OkRed(y.right, r', sentinel)
      ensures NoRedRed(r', sentinel)
    {
      forall n | n in nodes
        ensures OkRed(n, r', sentinel)
      {
        if n !in {x, y, x.left, x.right, y.left, y.right} {
          assert old(OkRed(n, r, sentinel));
        }
      }
    }

    // With these new colors of x and its child y, no red node among them and their children has
    // a red parent, but for r.
    ghost predicate PaintsWell(x: Node, cx: Color, y: Node, cy: Color, r: Node)
      reads x, y, x.parent`color, x.left`color, x.right`color, y.left`color, y.right`color
    {
      && (cx == Red ==> x == r || x.parent.color == Black)
      && (cy == Red ==> y == r || cx == Black)
      && (cx == Red && x.left != y ==> x.left == r || x.left.color == Black)
      && (cx == Red && x.right != y ==> x.right == r || x.right.color == Black)
      && (cy == Red ==> y.left == r || y.left.color == Black)
      && (cy == Red ==> y.right == r || y.right.color == Black)
    }

    lemma ChildApart(x: Node, y: Node, e: Node, r: Node)
      requires Linked() && x in nodes && y in nodes && (y == x.left || y == x.right)
      requires HeightsBut(x, y, e) && NoRedRed(r, sentinel)
      ensures x != y && x.parent != x && x.parent != y && y.parent == x
      ensures sentinel !in {x, y} && sentinel.bh == 0 && sentinel.color == Black
      ensures x.left in nodes ==> x.left.parent == x && x.left != x
      ensures x.right in nodes ==> x.right.parent == x && x.right != x
      ensures y.left in nodes ==> y.left.parent == y && y.left !in {x, y}
      ensures y.right in nodes ==> y.right.parent == y && y.right !in {x, y}
    {
    }

    // Coloring x and its child y unbalances them alone and leaves r' as the color exception.
    method Paint(x: Node, cx: Color, y: Node, cy: Color, ghost e: Node, ghost r: Node, ghost r': Node)
      requires Linked() && x in nodes && y in nodes && (y == x.left || y == x.right)
      requires HeightsBut(x, y, e) && NoRedRed(r, sentinel)
      requires r == r' || r in {x, y, x.left, x.right, y.left, y.right, sentinel}
      requires PaintsWell(x, cx, y, cy, r')
      modifies x`color, y`color
      ensures x.color == cx && y.color == cy
      ensures HeightsBut(x, y, e) && NoRedRed(r', sentinel)
    {
      hide Linked, HeightsBut, NoRedRed;
      ChildApart(x, y, e, r);
      SetColors(x, cx, y, cy);
      RecoloredHeights(x, y, e);
      RecoloredColors(x, y, r, r');
    }

    method SetColors(x: Node, cx: Color, y: Node, cy: Color)
      requires x in nodes && y in nodes && x != y && (y == x.left || y == x.right)
      modifies x`color, y`color
      ensures x.color == cx && y.color == cy && Recolored(x, y)
    {
      y.color := cy;
      x.color := cx;
    }

    // What a rotation needs to know about the four nodes it relinks.
    ghost predicate Pivot(node: Node, child: Node, inner: Node, outer: Node)
      reads this, node`parent, node.parent`left, node.parent`right
    {
      && sentinel !in nodes && node in nodes && child in nodes && child != node
      && outer != node && outer != child
      && (inner == sentinel || (inner in nodes && inner != node && inner != child))
      && (node.parent == sentinel || (node.parent in nodes && node.parent != node && node.parent != child
        && node.parent != inner))
      && (node.parent.left == node || node.parent.right == node)
    }

    // The sentinel's parent, when subst is the sentinel, is overwritten here.
    method ParentRelink(subst: Node, node: Node)
      requires node.parent.left == node || node.parent.right == node
      modifies subst`parent, node.parent`left, node.parent`right
      ensures subst.parent == old(node.parent)
      ensures if old(node.parent.left) == node
              then old(node.parent).left == subst && old(node.parent).right == old(node.parent.right)
              else old(node.parent).right == subst && old(node.parent).left == old(node.parent.left)
    {
      var parent := node.parent;
      subst.parent := parent;
      if node == parent.left {
        parent.left := subst;
      } else {
        parent.right := subst;
      }
    }

    // x was rotated left below y, formerly its right child.
    twostate predicate RotatedLeft(x: Node)
      reads this, nodes, sentinel
    {
      var y, inner, p := old(x.right), old(x.right.left), old(x.parent);
      && x in nodes && y in nodes && nodes == old(nodes) && S == old(S)
      && y != sentinel && y != x && (inner in nodes || inner == sentinel)
      && x.left == old(x.left) && x.right == inner && x.parent == y
      && x.lo == old(x.lo) && x.idx == old(x.idx) && x.hi == y.idx && x.color == old(x.color)
      && y.left == x && y.right == old(y.right) && y.parent == p
      && y.lo == old(x.lo) && y.idx == old(y.idx) && y.hi == old(y.hi) && y.color == old(y.color)
      && y.bh == old(x.bh) && x.bh == inner.bh + (if x.color == Black then 1 else 0)
      && (inner in nodes ==> inner.parent == x && SameBut(inner, true, false))
      && (p in nodes ==> SameBut(p, false, true))
      && (p in nodes + {sentinel} ==> p.left == (if old(p.left) == x then y else old(p.left))
                                      && p.right == (if old(p.left) == x then old(p.right) else y))
      && sentinel.color == old(sentinel.color) && sentinel.bh == old(sentinel.bh)
      && (p != sentinel ==> sentinel.left == old(sentinel.left) && sentinel.right == old(sentinel.right))
      && (forall n {:trigger n in nodes} ::
            n in nodes && n != x && n != y && n != inner && n != p ==> SameBut(n, false, false))
    }

    twostate lemma RotatedLeftLinked(x: Node)
      requires old(Linked()) && RotatedLeft(x)
      ensures Linked()
    {
      RotatedLeftIndexed(x);
      RotatedLeftLefts(x);
      RotatedLeftRights(x);
      RotatedLeftParents(x);
    }

    twostate lemma RotatedLeftIndexed(x: Node)
      requires old(Linked()) && RotatedLeft(x)
      ensures Indexed()
    {
      var y := old(x.right);
      assert old(y.lo) == old(x.idx) + 1 && old(y.hi) == old(x.hi);
      assert old(x.lo <= x.idx && y.lo <= y.idx < y.hi);
      forall n | n in nodes
        ensures 0 <= n.lo <= n.idx < n.hi <= |S| && S[n.idx] == n
      {
        assert old(0 <= n.lo <= n.idx < n.hi <= |S| && S[n.idx] == n);
      }
    }

    twostate lemma RotatedLeftLefts(x: Node)
      requires old(Linked()) && RotatedLeft(x)
      ensures Lefts()
    {
    }

    twostate lemma RotatedLeftRights(x: Node)
      requires old(Linked()) && RotatedLeft(x)
      ensures Rights()
    {
    }

    twostate lemma RotatedLeftParents(x: Node)
      requires old(Linked()) && RotatedLeft(x)
      ensures Parents()
    {
    }

    twostate lemma RotatedLeftHeights(x: Node, new e: Node)
      requires old(Linked()) && Linked() && RotatedLeft(x)
      requires old(allocated(e)) && old(HeightsBut(x, x.right, e))
      requires x == e || x.left.bh == x.right.bh
      requires Balanced(old(x.right))
      ensures HeightsBut(e, sentinel, sentinel)
    {
      forall n | n in nodes && n != e
        ensures Balanced(n)
      {
        if n != x && n != old(x.right) {
          RotatedLeftHeightAt(x, n);
        }
      }
    }

    twostate lemma RotatedLeftHeightAt(x: Node, new n: Node)
      requires old(Linked()) && RotatedLeft(x)
      requires n in nodes && n != x && n != old(x.right) && old(Balanced(n))
      ensures Balanced(n)
    {
      assert n.color == old(n.color) && n.bh == old(n.bh);
      assert n.left.bh == old(n.left.bh);
      assert n.right.bh == old(n.right.bh);
    }

    twostate lemma RotatedLeftColors(x: Node, new e: Node, new e': Node)
      requires old(Linked()) && Linked() && RotatedLeft(x)
      requires old(allocated(e)) && old(NoRedRed(e, sentinel))
      requires e == e' || e in {x, old(x.right), x.left, x.right, old(x.right).right, sentinel}
      requires OkRed(x, e', sentinel) && OkRed(old(x.right), e', sentinel)
      requires x.left in nodes ==> OkRed(x.left, e', sentinel)
      requires x.right in nodes ==> OkRed(x.right, e', sentinel)
      requires old(x.right).right in nodes ==> OkRed(old(x.right).right, e', sentinel)
      ensures NoRedRed(e', sentinel)
    {
      var y := old(x.right);
      forall n | n in nodes
        ensures OkRed(n, e', sentinel)
      {
        if n != x && n != y && n != x.left && n != x.right && n != y.right {
          assert old(OkRed(n, e, sentinel));
        }
      }
    }

    method LeftRotate(node: Node)
      requires Pivot(node, node.right, node.right.left, node.left)
      modifies node`right, node`parent, node`hi, node`bh, node.right`left, node.right`parent, node.right`lo,
               node.right`bh, node.right.left`parent, node.parent`left, node.parent`right
      ensures RotatedLeft(node)
    {
      ghost var inner, parent := node.right.left, node.parent;
      var child := node.right;
      node.right := child.left;
      child.left.parent := node;
      child.left := node;
      ParentRelink(child, node);
      node.parent := child;
      node.hi, child.lo := child.idx, node.lo;
      child.bh, node.bh := node.bh, node.right.bh + (if node.color == Black then 1 else 0);
      forall n | n in nodes && n != node && n != child && n != inner && n != parent
        ensures SameBut(n, false, false)
      {
      }
    }

    // x was rotated right below y, formerly its left child.
    twostate predicate RotatedRight(x: Node)
      reads this, nodes, sentinel
    {
      var y, inner, p := old(x.left), old(x.left.right), old(x.parent);
      && x in nodes && y in nodes && nodes == old(nodes) && S == old(S)
      && y != sentinel && y != x && (inner in nodes || inner == sentinel)
      && x.right == old(x.right) && x.left == inner && x.parent == y
      && x.hi == old(x.hi) && x.idx == old(x.idx) && x.lo == y.idx + 1 && x.color == old(x.color)
      && y.right == x && y.left == old(y.left) && y.parent == p
      && y.hi == old(x.hi) && y.idx == old(y.idx) && y.lo == old(y.lo) && y.color == old(y.color)
      && y.bh == old(x.bh) && x.bh == inner.bh + (if x.color == Black then 1 else 0)
      && (inner in nodes ==> inner.parent == x && SameBut(inner, true, false))
      && (p in nodes ==> SameBut(p, false, true))
      && (p in nodes + {sentinel} ==> p.left == (if old(p.left) == x then y else old(p.left))
                                      && p.right == (if old(p.left) == x then old(p.right) else y))
      && sentinel.color == old(sentinel.color) && sentinel.bh == old(sentinel.bh)
      && (p != sentinel ==> sentinel.right == old(sentinel.right) && sentinel.left == old(sentinel.left))
      && (forall n {:trigger n in nodes} ::
            n in nodes && n != x && n != y && n != inner && n != p ==> SameBut(n, false, false))
    }

    twostate lemma RotatedRightLinked(x: Node)
      requires old(Linked()) && RotatedRight(x)
      ensures Linked()
    {
      RotatedRightIndexed(x);
      RotatedRightRights(x);
      RotatedRightLefts(x);
      RotatedRightParents(x);
    }

    twostate lemma RotatedRightIndexed(x: Node)
      requires old(Linked()) && RotatedRight(x)
      ensures Indexed()
    {
      var y := old(x.left);
      assert old(y.hi) == old(x.idx) && old(y.lo) == old(x.lo);
      assert old(x.idx < x.hi && y.lo <= y.idx < y.hi);
      forall n | n in nodes
        ensures 0 <= n.lo <= n.idx < n.hi <= |S| && S[n.idx] == n
      {
        assert old(0 <= n.lo <= n.idx < n.hi <= |S| && S[n.idx] == n);
      }
    }

    twostate lemma RotatedRightRights(x: Node)
      requires old(Linked()) && RotatedRight(x)
      ensures Rights()
    {
    }

    twostate lemma RotatedRightLefts(x: Node)
      requires old(Linked()) && RotatedRight(x)
      ensures Lefts()
    {
    }

    twostate lemma RotatedRightParents(x: Node)
      requires old(Linked()) && RotatedRight(x)
      ensures Parents()
    {
    }

    twostate lemma RotatedRightHeights(x: Node, new e: Node)
      requires old(Linked()) && Linked() && RotatedRight(x)
      requires old(allocated(e)) && old(HeightsBut(x, x.left, e))
      requires x == e || x.right.bh == x.left.bh
      requires Balanced(old(x.left))
      ensures HeightsBut(e, sentinel, sentinel)
    {
      forall n | n in nodes && n != e
        ensures Balanced(n)
      {
        if n != x && n != old(x.left) {
          RotatedRightHeightAt(x, n);
        }
      }
    }

    twostate lemma RotatedRightHeightAt(x: Node, new n: Node)
      requires old(Linked()) && RotatedRight(x)
      requires n in nodes && n != x && n != old(x.left) && old(Balanced(n))
      ensures Balanced(n)
    {
      assert n.color == old(n.color) && n.bh == old(n.bh);
      assert n.right.bh == old(n.right.bh);
      assert n.left.bh == old(n.left.bh);
    }

    twostate lemma RotatedRightColors(x: Node, new e: Node, new e': Node)
      requires old(Linked()) && Linked() && RotatedRight(x)
      requires old(allocated(e)) && old(NoRedRed(e, sentinel))
      requires e == e' || e in {x, old(x.left), x.right, x.left, old(x.left).left, sentinel}
      requires OkRed(x, e', sentinel) && OkRed(old(x.left), e', sentinel)
      requires x.right in nodes ==> OkRed(x.right, e', sentinel)
      requires x.left in nodes ==> OkRed(x.left, e', sentinel)
      requires old(x.left).left in nodes ==> OkRed(old(x.left).left, e', sentinel)
      ensures NoRedRed(e', sentinel)
    {
      var y := old(x.left);
      forall n | n in nodes
        ensures OkRed(n, e', sentinel)
      {
        if n != x && n != y && n != x.right && n != x.left && n != y.left {
          assert old(OkRed(n, e, sentinel));
        }
      }
    }

    method RightRotate(node: Node)
      requires Pivot(node, node.left, node.left.right, node.right)
      modifies node`left, node`parent, node`lo, node`bh, node.left`right, node.left`parent, node.left`hi,
               node.left`bh, node.left.right`parent, node.parent`right, node.parent`left
      ensures RotatedRight(node)
    {
      ghost var inner, parent := node.left.right, node.parent;
      var child := node.left;
      node.left := child.right;
      child.right.parent := node;
      child.right := node;
      ParentRelink(child, node);
      node.parent := child;
      node.lo, child.hi := child.idx + 1, node.hi;
      child.bh, node.bh := node.bh, node.left.bh + (if node.color == Black then 1 else 0);
      forall n | n in nodes && n != node && n != child && n != inner && n != parent
        ensures SameBut(n, false, false)
      {
      }
    }

    lemma CanRotateLeft(x: Node)
      requires Linked() && x in nodes && x.right != sentinel
      ensures Pivot(x, x.right, x.right.left, x.left)
    {
    }

    // After a left rotation at x no red node among those relinked has a red parent, but for r.
    ghost predicate RotatesLeftWell(x: Node, r: Node)
      reads x, x.parent`color, x.left`color, x.right, x.right.left`color, x.right.right`color
    {
      var y := x.right;
      && (y.color == Red ==> y == r || x.parent.color == Black)
      && (x.color == Red ==> x == r || y.color == Black)
      && (y.left.color == Red ==> y.left == r || x.color == Black)
      && (x.left.color == Red ==> x.left == r || x.color == Black)
      && (y.right.color == Red ==> y.right == r || y.color == Black)
    }

    twostate lemma RotatedLeftTurn(x: Node, new e: Node, new r: Node, new r': Node)
      requires old(Linked()) && RotatedLeft(x) && old(allocated(e)) && old(allocated(r)) && old(allocated(r'))
      requires old(HeightsBut(x, x.right, e)) && old(NoRedRed(r, sentinel)) && old(RotatesLeftWell(x, r'))
      requires x == e || old(x.left.bh == x.right.left.bh)
      requires old(var nb := x.right.left.bh + (if x.color == Black then 1 else 0);
        nb == x.right.right.bh && x.bh == nb + (if x.right.color == Black then 1 else 0))
      requires old(r == r' || r in {x, x.right, x.left, x.right.left, x.right.right, sentinel})
      ensures Linked() && HeightsBut(e, sentinel, sentinel) && NoRedRed(r', sentinel)
    {
      RotatedLeftLinked(x);
      RotatedLeftHeights(x, e);
      RotatedLeftColors(x, r, r');
    }

    // A left rotation together with what it does to heights and colors: e stays the height exception,
    // the color exception moves from r to r'.
    method TurnLeft(x: Node, ghost e: Node, ghost r: Node, ghost r': Node)
      requires Linked() && x in nodes && x.right != sentinel
      requires HeightsBut(x, x.right, e) && NoRedRed(r, sentinel)
      requires x == e || x.left.bh == x.right.left.bh
      requires var nb := x.right.left.bh + (if x.color == Black then 1 else 0);
        nb == x.right.right.bh && x.bh == nb + (if x.right.color == Black then 1 else 0)
      requires r == r' || r in {x, x.right, x.left, x.right.left, x.right.right, sentinel}
      requires RotatesLeftWell(x, r')
      modifies nodes, sentinel`parent, sentinel`left, sentinel`right
      ensures nodes == old(nodes) && S == old(S) && Linked() && RotatedLeft(x)
      ensures HeightsBut(e, sentinel, sentinel) && NoRedRed(r', sentinel)
    {
      CanRotateLeft(x);
      LeftRotate(x);
      RotatedLeftTurn(x, e, r, r');
    }

    // Insertion, node an inner grandchild: it changes places with its parent.
    method InsertInnerAtLeft(node: Node)
      requires Linked() && HeightsBut(sentinel, sentinel, sentinel) && node in nodes && NoRedRed(node, sentinel)
      requires node.color == Red && node.parent in nodes && node.parent.color == Red && node == node.parent.right
      requires node.parent.parent in nodes && node.parent == node.parent.parent.left
      modifies nodes, sentinel`parent, sentinel`left, sentinel`right
      ensures nodes == old(nodes) && S == old(S) && Linked() && RotatedLeft(old(node.parent))
      ensures HeightsBut(sentinel, sentinel, sentinel) && NoRedRed(old(node.parent), sentinel)
    {
      var parent := node.parent;
      assert OkRed(parent, node, sentinel);
      assert parent.left in nodes ==> OkRed(parent.left, node, sentinel);
      assert node.left in nodes ==> OkRed(node.left, node, sentinel);
      assert node.right in nodes ==> OkRed(node.right, node, sentinel);
      assert Balanced(parent) && Balanced(node);
      TurnLeft(parent, sentinel, node, parent);
    }

    // Insertion, uncle black, node an outer grandchild: the parent takes the grandparent's place.
    method InsertOuterAtLeft(g: Node, ghost node: Node)
      requires Linked() && HeightsBut(sentinel, sentinel, sentinel) && NoRedRed(node, sentinel)
      requires g in nodes && g.color == Black && g.right.color == Black
      requires g.left in nodes && g.left.color == Red && node == g.left.left && node in nodes
      modifies nodes, sentinel`parent, sentinel`left, sentinel`right
      ensures nodes == old(nodes) && S == old(S)
      ensures Linked() && HeightsBut(sentinel, sentinel, sentinel) && NoRedRed(sentinel, sentinel)
    {
      var parent := g.left;
      assert parent.right in nodes ==> OkRed(parent.right, node, sentinel);
      assert Balanced(parent) && Balanced(g);
      Paint(g, Red, parent, Black, sentinel, node, g);
      TurnRight(g, sentinel, g, sentinel);
    }

    // Insertion, uncle black: one or two rotations and the tree is red-black but for its root.
    method InsertBlackUncleAtLeft(newNode: Node)
      requires Linked() && HeightsBut(sentinel, sentinel, sentinel) && newNode in nodes && NoRedRed(newNode, sentinel)
      requires newNode.color == Red && newNode.parent in nodes && newNode.parent.color == Red
      requires newNode.parent.parent in nodes && newNode.parent == newNode.parent.parent.left
      requires newNode.parent.parent.color == Black && newNode.parent.parent.right.color == Black
      modifies nodes, sentinel`parent, sentinel`left, sentinel`right
      ensures nodes == old(nodes) && S == old(S)
      ensures Linked() && HeightsBut(sentinel, sentinel, sentinel) && NoRedRed(sentinel, sentinel)
    {
      var node, parent, grandparent := newNode, newNode.parent, newNode.parent.parent;
      if node == parent.right {
        InsertInnerAtLeft(node);
        node := parent;
      }
      InsertOuterAtLeft(grandparent, node);
    }

    // The subtree of node is one black node short of what its parent expects.
    ghost predicate ShortAtLeft(parent: Node, node: Node)
      requires Linked()
      reads this, nodes, sentinel`bh, sentinel`left, sentinel`right
    {
      && parent in nodes && node == parent.left && HeightsBut(parent, sentinel, sentinel)
      && parent.right.bh == node.bh + 1 && parent.right in nodes
      && parent.bh == parent.right.bh + (if parent.color == Black then 1 else 0)
    }

    // Deletion, red sibling: it takes the parent's place, and the new sibling is black.
    method DeleteRedSiblingAtLeft(parent: Node, ghost node: Node)
      requires Linked() && ShortAtLeft(parent, node) && NoRedRed(sentinel, sentinel)
      requires parent.right.color == Red && node.color == Black && sentinel.left.color == Black
      modifies nodes, sentinel`parent, sentinel`left, sentinel`right
      ensures nodes == old(nodes) && S == old(S) && Linked() && NoRedRed(sentinel, sentinel)
      ensures ShortAtLeft(parent, node) && parent.right.color == Black && node.color == Black
      ensures parent.color == Red && sentinel.left.color == Black
    {
      var sibling := parent.right;
      ghost var inner, outer := sibling.left, sibling.right;
      assert OkRed(sibling, sentinel, sentinel) && Balanced(sibling);
      assert inner in nodes && OkRed(inner, sentinel, sentinel);
      Paint(parent, Red, sibling, Black, parent, sentinel, parent);
      TurnLeft(parent, parent, parent, sentinel);
    }

    method DeleteInnerColorsAtLeft(parent: Node, ghost node: Node)
      requires Linked() && ShortAtLeft(parent, node) && NoRedRed(sentinel, sentinel)
      requires var s := parent.right;
        s.color == Black && s.right.color == Black && s.left.color == Red && s.left in nodes
      modifies parent.right`color, parent.right.left`color
      ensures parent.right.color == Red && parent.right.left.color == Black
      ensures HeightsBut(parent.right, parent.right.left, parent) && NoRedRed(parent.right, sentinel)
      ensures var s := parent.right;
        s.right.bh == s.left.right.bh == s.left.left.bh && s.bh == s.left.left.bh + 1 && RotatesRightWell(s, sentinel)
    {
      var sibling := parent.right;
      var inner := sibling.left;
      assert Balanced(sibling) && Balanced(inner);
      assert inner.right in nodes ==> OkRed(inner.right, sentinel, sentinel);
      Paint(sibling, Red, inner, Black, parent, sentinel, sibling);
    }

    // The shape around a black sibling whose inner child is red.
    lemma InnerNephewAtLeft(parent: Node, node: Node)
      requires Linked() && ShortAtLeft(parent, node) && parent.right.left in nodes
      ensures var s := parent.right;
        && parent in nodes && node == parent.left && s in nodes && s.left != sentinel && s.parent == parent
        && s != parent && s.left != parent && s != node && s.left != node && node != parent && s.left != s
        && s != sentinel.left && s.left != sentinel.left && sentinel.left in nodes
        && sentinel !in nodes && (node in nodes || node == sentinel)
    {
    }

    // Below the parent, the inner nephew has taken the sibling's place.
    twostate lemma NephewTurnedAtLeft(parent: Node, new node: Node, new s: Node)
      requires old(Linked()) && Linked()
      requires old(parent in nodes && node == parent.left && s == parent.right && s in nodes)
      requires old(s.left in nodes && s.parent == parent && s != parent && s.left != parent && s != node
        && s.left != node)
      requires old(node != parent && s != sentinel.left && s.left != sentinel.left && sentinel.left in nodes)
      requires old(sentinel !in nodes && (node in nodes || node == sentinel))
      requires RotatedRight(s) && HeightsBut(parent, sentinel, sentinel)
      requires old(s.bh == node.bh + 1 && parent.bh == s.bh + (if parent.color == Black then 1 else 0))
      requires old(s.color == Red && s.left.color == Black && node.color == Black && sentinel.left.color == Black)
      ensures ShortAtLeft(parent, node) && parent.right.color == Black && node.color == Black
      ensures parent.right.right in nodes && parent.right.right.color == Red && sentinel.left.color == Black
    {
      hide Linked, HeightsBut;
    }

    // Deletion, black sibling whose inner child alone is red: that child becomes the sibling.
    method DeleteInnerNephewAtLeft(parent: Node, ghost node: Node)
      requires Linked() && ShortAtLeft(parent, node) && NoRedRed(sentinel, sentinel)
      requires var s := parent.right;
        s.color == Black && s.right.color == Black && s.left.color == Red && s.left in nodes
      requires node.color == Black && sentinel.left.color == Black
      modifies nodes, sentinel`parent, sentinel`left, sentinel`right
      ensures nodes == old(nodes) && S == old(S) && Linked() && NoRedRed(sentinel, sentinel)
      ensures ShortAtLeft(parent, node) && parent.right.color == Black && node.color == Black
      ensures parent.right.right in nodes && parent.right.right.color == Red && sentinel.left.color == Black
    {
      InnerNephewAtLeft(parent, node);
      var sibling := parent.right;
      DeleteInnerColorsAtLeft(parent, node);
      label Painted:
      TurnRight(sibling, parent, sibling, sentinel);
      NephewTurnedAtLeft@Painted(parent, node, sibling);
    }

    // The shape around a black sibling whose outer child is red.
    lemma OuterNephewAtLeft(parent: Node, node: Node)
      requires Linked() && ShortAtLeft(parent, node) && NoRedRed(sentinel, sentinel) && parent.right.right in nodes
      ensures parent in nodes && parent.right in nodes && node == parent.left && HeightsBut(parent, sentinel, sentinel)
      ensures var s := parent.right;
        && Balanced(s) && Balanced(s.right) && OkRed(parent, sentinel, sentinel) && s.parent == parent
        && s.right.parent == s && parent.parent !in {parent, s, s.right} && s.left !in {parent, s, s.right}
          && parent != s.right
        && s.bh == node.bh + 1 && parent.bh == s.bh + (if parent.color == Black then 1 else 0)
        && node !in {parent, s, s.right} && s != parent && s.right != s && sentinel.left !in {s, s.right}
          && sentinel !in nodes
    {
    }

    method DeleteOuterColorsAtLeft(parent: Node, ghost node: Node)
      requires Linked() && ShortAtLeft(parent, node) && NoRedRed(sentinel, sentinel)
      requires parent.right.color == Black && parent.right.right.color == Red && parent.right.right in nodes
      modifies parent`color, parent.right`color, parent.right.right`color, parent.right.right`bh
      ensures HeightsBut(parent, parent.right, sentinel) && NoRedRed(parent.right.left, sentinel)
      ensures parent.color == Black && parent.right.color == old(parent.color) && parent.right.right.color == Black
      ensures parent.left.bh == parent.right.left.bh && parent.right.right.bh == parent.left.bh + 1
      ensures parent.bh == parent.right.right.bh + (if parent.right.color == Black then 1 else 0)
      ensures parent.right.color == Red ==> parent.parent.color == Black
      ensures parent == sentinel.left || sentinel.left.color == old(sentinel.left.color)
    {
      hide Linked, HeightsBut, NoRedRed, ShortAtLeft;
      OuterNephewAtLeft(parent, node);
      var sibling := parent.right;
      ghost var inner := sibling.left;
      BlackenNephew(sibling.right, parent);
      Paint(parent, Black, sibling, parent.color, sentinel, sentinel, inner);
    }

    // Deletion, black sibling whose outer child is red: one rotation settles the heights.
    method DeleteOuterNephewAtLeft(parent: Node, ghost node: Node)
      requires Linked() && ShortAtLeft(parent, node) && NoRedRed(sentinel, sentinel)
      requires var s := parent.right;
        s.color == Black && s.right.color == Red && s.right in nodes
      requires node.color == Black && sentinel.left.color == Black
      modifies nodes, sentinel`parent, sentinel`left, sentinel`right
      ensures nodes == old(nodes) && S == old(S) && Linked() && NoRedRed(sentinel, sentinel)
      ensures HeightsBut(sentinel, sentinel, sentinel) && sentinel.left.color == Black
    {
      ghost var inner := parent.right.left;
      DeleteOuterColorsAtLeft(parent, node);
      TurnLeft(parent, sentinel, inner, sentinel);
    }

    // One round of deletion repair with the short node on the left.  The parent is passed along because
    // the sentinel's own parent field is not to be trusted after a rotation.
    method DeleteRoundAtLeft(parent: Node, ghost node: Node) returns (done: bool)
      requires Linked() && ShortAtLeft(parent, node) && NoRedRed(sentinel, sentinel)
      requires node.color == Black && sentinel.left.color == Black
      modifies nodes, sentinel`parent, sentinel`left, sentinel`right
      ensures nodes == old(nodes) && S == old(S) && Linked() && sentinel.left.color == Black
      ensures done ==> HeightsBut(sentinel, sentinel, sentinel) && NoRedRed(sentinel, sentinel)
      ensures !done ==> NoRedRed(sentinel, parent) && ShortOrRoot(parent)
      ensures !done && parent.color == Black ==>
        parent.parent == old(parent.parent) && forall n :: n in nodes ==> n.lo == old(n.lo) && n.hi == old(n.hi)
    {
      var sibling := parent.right;
      if sibling.color != Black {
        DeleteRedSiblingAtLeft(parent, node);
        sibling := parent.right;
      }
      if sibling.right.color == Black {
        if sibling.left.color == Black {
          DeletePullUp(parent, sibling, node);
          return false;
        }
        DeleteInnerNephewAtLeft(parent, node);
      }
      DeleteOuterNephewAtLeft(parent, node);
      return true;
    }

    lemma CanRotateRight(x: Node)
      requires Linked() && x in nodes && x.left != sentinel
      ensures Pivot(x, x.left, x.left.right, x.right)
    {
    }

    // After a right rotation at x no red node among those relinked has a red parent, but for r.
    ghost predicate RotatesRightWell(x: Node, r: Node)
      reads x, x.parent`color, x.right`color, x.left, x.left.right`color, x.left.left`color
    {
      var y := x.left;
      && (y.color == Red ==> y == r || x.parent.color == Black)
      && (x.color == Red ==> x == r || y.color == Black)
      && (y.right.color == Red ==> y.right == r || x.color == Black)
      && (x.right.color == Red ==> x.right == r || x.color == Black)
      && (y.left.color == Red ==> y.left == r || y.color == Black)
    }

    twostate lemma RotatedRightTurn(x: Node, new e: Node, new r: Node, new r': Node)
      requires old(Linked()) && RotatedRight(x) && old(allocated(e)) && old(allocated(r)) && old(allocated(r'))
      requires old(HeightsBut(x, x.left, e)) && old(NoRedRed(r, sentinel)) && old(RotatesRightWell(x, r'))
      requires x == e || old(x.right.bh == x.left.right.bh)
      requires old(var nb := x.left.right.bh + (if x.color == Black then 1 else 0);
        nb == x.left.left.bh && x.bh == nb + (if x.left.color == Black then 1 else 0))
      requires old(r == r' || r in {x, x.left, x.right, x.left.right, x.left.left, sentinel})
      ensures Linked() && HeightsBut(e, sentinel, sentinel) && NoRedRed(r', sentinel)
    {
      RotatedRightLinked(x);
      RotatedRightHeights(x, e);
      RotatedRightColors(x, r, r');
    }

    // A right rotation together with what it does to heights and colors: e stays the height exception,
    // the color exception moves from r to r'.
    method TurnRight(x: Node, ghost e: Node, ghost r: Node, ghost r': Node)
      requires Linked() && x in nodes && x.left != sentinel
      requires HeightsBut(x, x.left, e) && NoRedRed(r, sentinel)
      requires x == e || x.right.bh == x.left.right.bh
      requires var nb := x.left.right.bh + (if x.color == Black then 1 else 0);
        nb == x.left.left.bh && x.bh == nb + (if x.left.color == Black then 1 else 0)
      requires r == r' || r in {x, x.left, x.right, x.left.right, x.left.left, sentinel}
      requires RotatesRightWell(x, r')
      modifies nodes, sentinel`parent, sentinel`right, sentinel`left
      ensures nodes == old(nodes) && S == old(S) && Linked() && RotatedRight(x)
      ensures HeightsBut(e, sentinel, sentinel) && NoRedRed(r', sentinel)
    {
      CanRotateRight(x);
      RightRotate(x);
      RotatedRightTurn(x, e, r, r');
    }

    // Insertion, node an inner grandchild: it changes places with its parent.
    method InsertInnerAtRight(node: Node)
      requires Linked() && HeightsBut(sentinel, sentinel, sentinel) && node in nodes && NoRedRed(node, sentinel)
      requires node.color == Red && node.parent in nodes && node.parent.color == Red && node == node.parent.left
      requires node.parent.parent in nodes && node.parent == node.parent.parent.right
      modifies nodes, sentinel`parent, sentinel`right, sentinel`left
      ensures nodes == old(nodes) && S == old(S) && Linked() && RotatedRight(old(node.parent))
      ensures HeightsBut(sentinel, sentinel, sentinel) && NoRedRed(old(node.parent), sentinel)
    {
      var parent := node.parent;
      assert OkRed(parent, node, sentinel);
      assert parent.right in nodes ==> OkRed(parent.right, node, sentinel);
      assert node.right in nodes ==> OkRed(node.right, node, sentinel);
      assert node.left in nodes ==> OkRed(node.left, node, sentinel);
      assert Balanced(parent) && Balanced(node);
      TurnRight(parent, sentinel, node, parent);
    }

    // Insertion, uncle black, node an outer grandchild: the parent takes the grandparent's place.
    method InsertOuterAtRight(g: Node, ghost node: Node)
      requires Linked() && HeightsBut(sentinel, sentinel, sentinel) && NoRedRed(node, sentinel)
      requires g in nodes && g.color == Black && g.left.color == Black
      requires g.right in nodes && g.right.color == Red && node == g.right.right && node in nodes
      modifies nodes, sentinel`parent, sentinel`right, sentinel`left
      ensures nodes == old(nodes) && S == old(S)
      ensures Linked() && HeightsBut(sentinel, sentinel, sentinel) && NoRedRed(sentinel, sentinel)
    {
      var parent := g.right;
      assert parent.left in nodes ==> OkRed(parent.left, node, sentinel);
      assert Balanced(parent) && Balanced(g);
      Paint(g, Red, parent, Black, sentinel, node, g);
      TurnLeft(g, sentinel, g, sentinel);
    }

    // Insertion, uncle black: one or two rotations and the tree is red-black but for its root.
    method InsertBlackUncleAtRight(newNode: Node)
      requires Linked() && HeightsBut(sentinel, sentinel, sentinel) && newNode in nodes && NoRedRed(newNode, sentinel)
      requires newNode.color == Red && newNode.parent in nodes && newNode.parent.color == Red
      requires newNode.parent.parent in nodes && newNode.parent == newNode.parent.parent.right
      requires newNode.parent.parent.color == Black && newNode.parent.parent.left.color == Black
      modifies nodes, sentinel`parent, sentinel`right, sentinel`left
      ensures nodes == old(nodes) && S == old(S)
      ensures Linked() && HeightsBut(sentinel, sentinel, sentinel) && NoRedRed(sentinel, sentinel)
    {
      var node, parent, grandparent := newNode, newNode.parent, newNode.parent.parent;
      if node == parent.left {
        InsertInnerAtRight(node);
        node := parent;
      }
      InsertOuterAtRight(grandparent, node);
    }

    // The subtree of node is one black node short of what its parent expects.
    ghost predicate ShortAtRight(parent: Node, node: Node)
      requires Linked()
      reads this, nodes, sentinel`bh, sentinel`right, sentinel`left
    {
      && parent in nodes && node == parent.right && HeightsBut(parent, sentinel, sentinel)
      && parent.left.bh == node.bh + 1 && parent.left in nodes
      && parent.bh == parent.left.bh + (if parent.color == Black then 1 else 0)
    }

    // Deletion, red sibling: it takes the parent's place, and the new sibling is black.
    method DeleteRedSiblingAtRight(parent: Node, ghost node: Node)
      requires Linked() && ShortAtRight(parent, node) && NoRedRed(sentinel, sentinel)
      requires parent.left.color == Red && node.color == Black && sentinel.left.color == Black
      modifies nodes, sentinel`parent, sentinel`right, sentinel`left
      ensures nodes == old(nodes) && S == old(S) && Linked() && NoRedRed(sentinel, sentinel)
      ensures ShortAtRight(parent, node) && parent.left.color == Black && node.color == Black
      ensures parent.color == Red && sentinel.left.color == Black
    {
      var sibling := parent.left;
      ghost var inner, outer := sibling.right, sibling.left;
      assert OkRed(sibling, sentinel, sentinel) && Balanced(sibling);
      assert inner in nodes && OkRed(inner, sentinel, sentinel);
      Paint(parent, Red, sibling, Black, parent, sentinel, parent);
      TurnRight(parent, parent, parent, sentinel);
    }

    method DeleteInnerColorsAtRight(parent: Node, ghost node: Node)
      requires Linked() && ShortAtRight(parent, node) && NoRedRed(sentinel, sentinel)
      requires var s := parent.left;
        s.color == Black && s.left.color == Black && s.right.color == Red && s.right in nodes
      modifies parent.left`color, parent.left.right`color
      ensures parent.left.color == Red && parent.left.right.color == Black
      ensures HeightsBut(parent.left, parent.left.right, parent) && NoRedRed(parent.left, sentinel)
      ensures var s := parent.left;
        s.left.bh == s.right.left.bh == s.right.right.bh && s.bh == s.right.right.bh + 1 && RotatesLeftWell(s, sentinel)
    {
      var sibling := parent.left;
      var inner := sibling.right;
      assert Balanced(sibling) && Balanced(inner);
      assert inner.left in nodes ==> OkRed(inner.left, sentinel, sentinel);
      Paint(sibling, Red, inner, Black, parent, sentinel, sibling);
    }

    // The shape around a black sibling whose inner child is red.
    lemma InnerNephewAtRight(parent: Node, node: Node)
      requires Linked() && ShortAtRight(parent, node) && parent.left.right in nodes
      ensures var s := parent.left;
        && parent in nodes && node == parent.right && s in nodes && s.right != sentinel && s.parent == parent
        && s != parent && s.right != parent && s != node && s.right != node && node != parent && s.right != s
        && s != sentinel.left && s.right != sentinel.left && sentinel.left in nodes
        && sentinel !in nodes && (node in nodes || node == sentinel)
    {
    }

    // Below the parent, the inner nephew has taken the sibling's place.
    twostate lemma NephewTurnedAtRight(parent: Node, new node: Node, new s: Node)
      requires old(Linked()) && Linked()
      requires old(parent in nodes && node == parent.right && s == parent.left && s in nodes)
      requires old(s.right in nodes && s.parent == parent && s != parent && s.right != parent && s != node
        && s.right != node)
      requires old(node != parent && s != sentinel.left && s.right != sentinel.left && sentinel.left in nodes)
      requires old(sentinel !in nodes && (node in nodes || node == sentinel))
      requires RotatedLeft(s) && HeightsBut(parent, sentinel, sentinel)
      requires old(s.bh == node.bh + 1 && parent.bh == s.bh + (if parent.color == Black then 1 else 0))
      requires old(s.color == Red && s.right.color == Black && node.color == Black && sentinel.left.color == Black)
      ensures ShortAtRight(parent, node) && parent.left.color == Black && node.color == Black
      ensures parent.left.left in nodes && parent.left.left.color == Red && sentinel.left.color == Black
    {
      hide Linked, HeightsBut;
    }

    // Deletion, black sibling whose inner child alone is red: that child becomes the sibling.
    method DeleteInnerNephewAtRight(parent: Node, ghost node: Node)
      requires Linked() && ShortAtRight(parent, node) && NoRedRed(sentinel, sentinel)
      requires var s := parent.left;
        s.color == Black && s.left.color == Black && s.right.color == Red && s.right in nodes
      requires node.color == Black && sentinel.left.color == Black
      modifies nodes, sentinel`parent, sentinel`right, sentinel`left
      ensures nodes == old(nodes) && S == old(S) && Linked() && NoRedRed(sentinel, sentinel)
      ensures ShortAtRight(parent, node) && parent.left.color == Black && node.color == Black
      ensures parent.left.left in nodes && parent.left.left.color == Red && sentinel.left.color == Black
    {
      InnerNephewAtRight(parent, node);
      var sibling := parent.left;
      DeleteInnerColorsAtRight(parent, node);
      label Painted:
      TurnLeft(sibling, parent, sibling, sentinel);
      NephewTurnedAtRight@Painted(parent, node, sibling);
    }

    // The shape around a black sibling whose outer child is red.
    lemma OuterNephewAtRight(parent: Node, node: Node)
      requires Linked() && ShortAtRight(parent, node) && NoRedRed(sentinel, sentinel) && parent.left.left in nodes
      ensures parent in nodes && parent.left in nodes && node == parent.right && HeightsBut(parent, sentinel, sentinel)
      ensures var s := parent.left;
        && Balanced(s) && Balanced(s.left) && OkRed(parent, sentinel, sentinel) && s.parent == parent
        && s.left.parent == s && parent.parent !in {parent, s, s.left} && s.right !in {parent, s, s.left}
          && parent != s.left
        && s.bh == node.bh + 1 && parent.bh == s.bh + (if parent.color == Black then 1 else 0)
        && node !in {parent, s, s.left} && s != parent && s.left != s && sentinel.left !in {s, s.left}
          && sentinel !in nodes
    {
    }

    method DeleteOuterColorsAtRight(parent: Node, ghost node: Node)
      requires Linked() && ShortAtRight(parent, node) && NoRedRed(sentinel, sentinel)
      requires parent.left.color == Black && parent.left.left.color == Red && parent.left.left in nodes
      modifies parent`color, parent.left`color, parent.left.left`color, parent.left.left`bh
      ensures HeightsBut(parent, parent.left, sentinel) && NoRedRed(parent.left.right, sentinel)
      ensures parent.color == Black && parent.left.color == old(parent.color) && parent.left.left.color == Black
      ensures parent.right.bh == parent.left.right.bh && parent.left.left.bh == parent.right.bh + 1
      ensures parent.bh == parent.left.left.bh + (if parent.left.color == Black then 1 else 0)
      ensures parent.left.color == Red ==> parent.parent.color == Black
      ensures parent == sentinel.left || sentinel.left.color == old(sentinel.left.color)
    {
      hide Linked, HeightsBut, NoRedRed, ShortAtRight;
      OuterNephewAtRight(parent, node);
      var sibling := parent.left;
      ghost var inner := sibling.right;
      BlackenNephew(sibling.left, parent);
      Paint(parent, Black, sibling, parent.color, sentinel, sentinel, inner);
    }

    // Deletion, black sibling whose outer child is red: one rotation settles the heights.
    method DeleteOuterNephewAtRight(parent: Node, ghost node: Node)
      requires Linked() && ShortAtRight(parent, node) && NoRedRed(sentinel, sentinel)
      requires var s := parent.left;
        s.color == Black && s.left.color == Red && s.left in nodes
      requires node.color == Black && sentinel.left.color == Black
      modifies nodes, sentinel`parent, sentinel`right, sentinel`left
      ensures nodes == old(nodes) && S == old(S) && Linked() && NoRedRed(sentinel, sentinel)
      ensures HeightsBut(sentinel, sentinel, sentinel) && sentinel.left.color == Black
    {
      ghost var inner := parent.left.right;
      DeleteOuterColorsAtRight(parent, node);
      TurnRight(parent, sentinel, inner, sentinel);
    }

    // One round of deletion repair with the short node on the right.  The parent is passed along because
    // the sentinel's own parent field is not to be trusted after a rotation.
    method DeleteRoundAtRight(parent: Node, ghost node: Node) returns (done: bool)
      requires Linked() && ShortAtRight(parent, node) && NoRedRed(sentinel, sentinel)
      requires node.color == Black && sentinel.left.color == Black
      modifies nodes, sentinel`parent, sentinel`right, sentinel`left
      ensures nodes == old(nodes) && S == old(S) && Linked() && sentinel.left.color == Black
      ensures done ==> HeightsBut(sentinel, sentinel, sentinel) && NoRedRed(sentinel, sentinel)
      ensures !done ==> NoRedRed(sentinel, parent) && ShortOrRoot(parent)
      ensures !done && parent.color == Black ==>
        parent.parent == old(parent.parent) && forall n :: n in nodes ==> n.hi == old(n.hi) && n.lo == old(n.lo)
    {
      var sibling := parent.left;
      if sibling.color != Black {
        DeleteRedSiblingAtRight(parent, node);
        sibling := parent.left;
      }
      if sibling.left.color == Black {
        if sibling.right.color == Black {
          DeletePullUp(parent, sibling, node);
          return false;
        }
        DeleteInnerNephewAtRight(parent, node);
      }
      DeleteOuterNephewAtRight(parent, node);
      return true;
    }

    // g has lost its blackness to both its red children.
    twostate predicate PushedDown(g: Node)
      reads this, nodes
    {
      && g in nodes && g.left in nodes && g.right in nodes && nodes == old(nodes) && S == old(S)
      && old(g.color) == Black && old(g.left.color) == Red && old(g.right.color) == Red
      && g.color == Red && g.left.color == Black && g.right.color == Black
      && (forall n {:trigger n in nodes} :: n in nodes ==>
            n.left == old(n.left) && n.right == old(n.right) && n.parent == old(n.parent)
            && n.bh == old(n.bh) + (if n == g.left || n == g.right then 1 else 0)
            && (n == g || n == g.left || n == g.right || n.color == old(n.color)))
    }

    twostate lemma PushedDownHeights(g: Node)
      requires old(Linked()) && Linked() && PushedDown(g) && sentinel.bh == old(sentinel.bh)
      requires old(HeightsBut(sentinel, sentinel, sentinel))
      ensures HeightsBut(sentinel, sentinel, sentinel)
    {
      forall n | n in nodes
        ensures Balanced(n)
      {
        assert old(Balanced(n)) && old(Balanced(g));
        assert n.left in nodes ==> n.left.parent == n;
        assert n.right in nodes ==> n.right.parent == n;
      }
    }

    twostate lemma PushedDownColors(g: Node, new node: Node)
      requires old(Linked()) && Linked() && PushedDown(g) && sentinel.color == Black
      requires old(allocated(node)) && old(NoRedRed(node, sentinel)) && node in nodes
      requires node.parent == g.left || node.parent == g.right
      ensures NoRedRed(g, sentinel)
    {
      forall n | n in nodes
        ensures OkRed(n, g, sentinel)
      {
        assert old(OkRed(n, node, sentinel));
      }
    }

    // Insertion, uncle red: the grandparent's blackness moves down to both its children.
    method PushBlackDown(g: Node, ghost node: Node)
      requires Linked() && HeightsBut(sentinel, sentinel, sentinel) && NoRedRed(node, sentinel)
      requires g in nodes && g.color == Black && g.left in nodes && g.right in nodes
      requires g.left.color == Red && g.right.color == Red
      requires node in nodes && (node.parent == g.left || node.parent == g.right)
      modifies nodes`color, nodes`bh
      ensures HeightsBut(sentinel, sentinel, sentinel) && NoRedRed(g, sentinel) && PushedDown(g)
    {
      hide Indexed, Lefts, Rights, Parents, HeightsBut, NoRedRed;
      RedUncle(g, node);
      SetThree(g);
      PushedDownHeights(g);
      PushedDownColors(g, node);
    }

    lemma RedUncle(g: Node, node: Node)
      requires Linked() && HeightsBut(sentinel, sentinel, sentinel) && NoRedRed(node, sentinel)
      requires g in nodes && g.left in nodes && g.right in nodes
      ensures g != g.left && g != g.right && g.left != g.right && sentinel !in nodes && sentinel.color == Black
    {
      hide HeightsBut;
    }

    method SetThree(g: Node)
      requires g in nodes && g.left in nodes && g.right in nodes
      requires g != g.left && g != g.right && g.left != g.right
      requires g.color == Black && g.left.color == Red && g.right.color == Red
      modifies g`color, g.left`color, g.right`color, g.left`bh, g.right`bh
      ensures PushedDown(g)
    {
      g.right.color := Black;
      g.left.color := Black;
      g.color := Red;
      g.left.bh, g.right.bh := g.left.bh + 1, g.right.bh + 1;
    }

    // A red node with a red parent has a black grandparent, with a larger subtree.
    lemma RedParent(node: Node)
      requires Linked() && NoRedRed(node, sentinel) && node in nodes && node.parent.color == Red
      requires sentinel.left == node || sentinel.left.color == Black
      ensures var g := node.parent.parent;
        && node.parent in nodes && g in nodes && g.color == Black && (node.parent == g.left || node.parent == g.right)
        && g.left != g.right && g.hi - g.lo > node.hi - node.lo && 0 <= g.lo && g.hi <= |S|
        && (sentinel.left != g ==> sentinel.left.color == Black)
        && (g.left.color == Red ==> g.left in nodes) && (g.right.color == Red ==> g.right in nodes)
    {
      assert OkRed(node.parent, node, sentinel);
    }

    // One round of insertion repair: the uncle is black and the tree is repaired, or the grandparent has turned red.
    method InsertRound(node: Node) returns (done: bool, grandparent: Node)
      requires Linked() && HeightsBut(sentinel, sentinel, sentinel) && NoRedRed(node, sentinel)
      requires node in nodes && node.color == Red && node.parent.color == Red
      requires sentinel.left == node || sentinel.left.color == Black
      modifies nodes, sentinel`parent, sentinel`left, sentinel`right
      ensures nodes == old(nodes) && S == old(S) && Linked() && HeightsBut(sentinel, sentinel, sentinel)
      ensures done ==> NoRedRed(sentinel, sentinel)
      ensures !done ==> NoRedRed(grandparent, sentinel) && grandparent in nodes && grandparent.color == Red
      ensures !done ==> sentinel.left == grandparent || sentinel.left.color == Black
      ensures !done ==> old(node.hi - node.lo) < grandparent.hi - grandparent.lo <= |S|
    {
      hide Linked, HeightsBut, NoRedRed, OkRed;
      RedParent(node);
      var parent := node.parent;
      grandparent := parent.parent;
      if parent == grandparent.left {
        if grandparent.right.color == Black {
          InsertBlackUncleAtLeft(node);
          return true, grandparent;
        }
      } else {
        if grandparent.left.color == Black {
          InsertBlackUncleAtRight(node);
          return true, grandparent;
        }
      }
      PushBlackDown(grandparent, node);
      done := false;
    }

    method InsertFixup(newNode: Node)
      requires Linked() && HeightsBut(sentinel, sentinel, sentinel) && NoRedRed(newNode, sentinel)
      requires newNode in nodes && newNode.color == Red
      requires sentinel.left == newNode || sentinel.left.color == Black
      modifies nodes, sentinel`parent, sentinel`left, sentinel`right
      ensures nodes == old(nodes) && S == old(S)
      ensures Linked() && HeightsBut(sentinel, sentinel, sentinel) && NoRedRed(sentinel, sentinel)
    {
      var node := newNode;
      while node.parent.color != Black
        invariant nodes == old(nodes) && S == old(S) && node in nodes && node.color == Red
        invariant Linked() && HeightsBut(sentinel, sentinel, sentinel) && NoRedRed(node, sentinel)
        invariant sentinel.left == node || sentinel.left.color == Black
        decreases |S| - (node.hi - node.lo)
      {
        var done;
        done, node := InsertRound(node);
        if done {
          return;
        }
      }
      Recast(node, sentinel, sentinel, sentinel);
    }

    // A red node turned black raises its own height and unbalances its parent only.
    twostate predicate Blackened(z: Node)
      reads this, nodes
    {
      && z in nodes && nodes == old(nodes) && S == old(S) && z.color == Black && old(z.color) == Red
      && (forall n {:trigger n in nodes} :: n in nodes ==>
            n.left == old(n.left) && n.right == old(n.right) && n.parent == old(n.parent)
            && n.bh == old(n.bh) + (if n == z then 1 else 0) && (n == z || n.color == old(n.color)))
    }

    twostate lemma BlackenedHeights(z: Node, new a: Node)
      requires old(Linked()) && Linked() && Blackened(z) && sentinel.bh == old(sentinel.bh)
      requires old(allocated(a)) && old(HeightsBut(a, sentinel, sentinel))
      ensures HeightsBut(a, z.parent, sentinel)
    {
      forall n | n in nodes && n != a && n != z.parent
        ensures Balanced(n)
      {
        assert old(Balanced(n));
        assert n.left in nodes ==> n.left.parent == n;
        assert n.right in nodes ==> n.right.parent == n;
      }
    }

    twostate lemma BlackenedColors(z: Node)
      requires old(Linked()) && Linked() && Blackened(z) && sentinel.color == Black
      requires old(NoRedRed(z, z))
      ensures NoRedRed(sentinel, sentinel)
    {
      forall n | n in nodes
        ensures OkRed(n, sentinel, sentinel)
      {
        assert old(OkRed(n, z, z));
      }
    }

    method Blacken(z: Node)
      requires z in nodes || z.color == Black
      modifies z`color, z`bh
      ensures if old(z.color) == Red then Blackened(z) else unchanged(z)
    {
      if z.color == Red {
        z.bh := z.bh + 1;
      }
      z.color := Black;
    }

    method BlackenNephew(z: Node, ghost a: Node)
      requires Linked() && z in nodes && z.color == Red && z.parent in nodes
      requires HeightsBut(a, sentinel, sentinel) && NoRedRed(sentinel, sentinel)
      modifies z`color, z`bh
      ensures Blackened(z) && HeightsBut(a, z.parent, sentinel) && NoRedRed(sentinel, sentinel)
    {
      Recast(sentinel, sentinel, z, z);
      Blacken(z);
      BlackenedHeights(z, a);
      BlackenedColors(z);
    }

    // The sibling has turned red, which lowers it and its parent by one.
    twostate predicate Reddened(parent: Node, new sibling: Node)
      reads this, nodes
    {
      && parent in nodes && sibling in nodes && nodes == old(nodes) && S == old(S)
      && (sibling == parent.left || sibling == parent.right)
      && sibling.color == Red && (forall n {:trigger n in nodes} :: n in nodes ==>
            n.left == old(n.left) && n.right == old(n.right) && n.parent == old(n.parent)
            && n.bh == old(n.bh) - (if n == sibling || n == parent then 1 else 0)
            && (n == sibling || n.color == old(n.color)))
    }

    // Deletion, black sibling with no red child: the sibling turns red and the parent becomes the short one.
    method DeleteRedden(parent: Node, sibling: Node)
      requires parent in nodes && sibling in nodes && parent != sibling
      requires sibling.bh > 0 && parent.bh > 0 && sibling.color == Black
      requires sibling == parent.left || sibling == parent.right
      modifies sibling`color, sibling`bh, parent`bh
      ensures Reddened(parent, sibling)
    {
      sibling.color := Red;
      sibling.bh, parent.bh := sibling.bh - 1, parent.bh - 1;
    }

    twostate lemma ReddenedHeights(parent: Node, new sibling: Node)
      requires old(Linked()) && Linked() && Reddened(parent, sibling) && sentinel.bh == old(sentinel.bh)
      requires old(HeightsBut(parent, sentinel, sentinel)) && old(allocated(sibling)) && old(sibling.color) == Black
      requires Balanced(parent)
      ensures HeightsBut(parent.parent, sentinel, sentinel)
    {
      forall n | n in nodes && n != parent.parent
        ensures Balanced(n)
      {
        if n != parent {
          assert old(Balanced(n));
          assert n.left in nodes ==> n.left.parent == n;
          assert n.right in nodes ==> n.right.parent == n;
        }
      }
    }

    twostate lemma ReddenedColors(parent: Node, new sibling: Node)
      requires old(Linked()) && Linked() && Reddened(parent, sibling) && sentinel.color == Black
      requires old(NoRedRed(sentinel, sentinel))
      requires sibling.left.color == Black && sibling.right.color == Black
      ensures NoRedRed(sentinel, parent)
    {
      forall n | n in nodes
        ensures OkRed(n, sentinel, parent)
      {
        assert old(OkRed(n, sentinel, sentinel));
        assert n.parent in nodes ==> n == n.parent.left || n == n.parent.right;
      }
    }

    // Node is where one black is missing, or it is the root and nothing is missing.
    ghost predicate Short(parent: Node, node: Node)
      requires Linked()
      reads this, nodes, sentinel`bh, sentinel`left, sentinel`right
    {
      ShortAtLeft(parent, node) || ShortAtRight(parent, node)
    }

    ghost predicate ShortOrRoot(node: Node)
      requires Linked()
      reads this, node, nodes, sentinel`bh, sentinel`left, sentinel`right
    {
      if node == sentinel.left then HeightsBut(sentinel, sentinel, sentinel) else Short(node.parent, node)
    }

    twostate lemma ReddenedShort(parent: Node, new sibling: Node)
      requires old(Linked()) && Linked() && Reddened(parent, sibling) && sentinel.bh == old(sentinel.bh)
      requires sentinel.color == Black && sentinel.left == old(sentinel.left)
      requires old(Short(parent, if sibling == parent.right then parent.left else parent.right))
      requires parent.left != parent.right
      requires old(allocated(sibling)) && old(sibling.color) == Black && old(NoRedRed(sentinel, sentinel))
      requires sibling.left.color == Black && sibling.right.color == Black
      ensures ShortOrRoot(parent) && NoRedRed(sentinel, parent)
    {
      assert Balanced(parent);
      ReddenedHeights(parent, sibling);
      ReddenedColors(parent, sibling);
      if parent != sentinel.left {
        ReddenedMoves(parent, sibling);
      }
    }

    twostate lemma ReddenedMoves(parent: Node, new sibling: Node)
      requires old(Linked()) && Linked() && Reddened(parent, sibling) && sentinel.bh == old(sentinel.bh)
      requires old(HeightsBut(parent, sentinel, sentinel)) && parent != sentinel.left
      requires sentinel.left == old(sentinel.left)
      requires HeightsBut(parent.parent, sentinel, sentinel)
      ensures Short(parent.parent, parent)
    {
      assert parent.parent in nodes && old(Balanced(parent.parent));
    }

    method DeletePullUp(parent: Node, sibling: Node, ghost node: Node)
      requires Linked() && Short(parent, node) && NoRedRed(sentinel, sentinel) && sentinel.left.color == Black
      requires sibling == (if node == parent.left then parent.right else parent.left)
      requires sibling.color == Black && sibling.left.color == Black && sibling.right.color == Black
      modifies nodes`color, nodes`bh
      ensures NoRedRed(sentinel, parent) && ShortOrRoot(parent) && sentinel.left.color == Black
      ensures parent.color == old(parent.color)
    {
      assert parent.left != parent.right;
      DeleteRedden(parent, sibling);
      ReddenedShort(parent, sibling);
    }

    // The spans around a short node that is not the root.
    lemma ShortSpans(parent: Node, node: Node)
      requires Linked() && Short(parent, node)
      ensures parent in nodes && 0 <= parent.lo <= parent.hi <= |S|
      ensures if node == parent.left then ShortAtLeft(parent, node) else ShortAtRight(parent, node)
      ensures parent != sentinel.left ==>
        parent.parent in nodes && parent.hi - parent.lo < parent.parent.hi - parent.parent.lo <= |S|
    {
    }

    // One round of deletion repair: done, or the parent is the short node now.
    method FixupRound(node: Node) returns (done: bool, next: Node)
      requires Linked() && NoRedRed(node, node) && Short(node.parent, node) && node.color == Black
      requires node in nodes || node == sentinel
      requires sentinel.left.color == Black
      modifies nodes, sentinel`parent, sentinel`left, sentinel`right
      ensures nodes == old(nodes) && S == old(S) && Linked() && sentinel.left.color == Black
      ensures done ==> HeightsBut(sentinel, sentinel, sentinel) && NoRedRed(sentinel, sentinel)
      ensures !done ==> next in nodes && NoRedRed(next, next) && ShortOrRoot(next)
      ensures !done && next.color == Black && next != sentinel.left ==>
        Rank(next.parent) < old(Rank(node.parent))
    {
      hide Linked, HeightsBut, NoRedRed, ShortOrRoot, Short, ShortAtLeft, ShortAtRight;
      var parent := node.parent;
      ShortSpans(parent, node);
      Recast(node, node, sentinel, sentinel);
      if node == parent.left {
        done := DeleteRoundAtLeft(parent, node);
      } else {
        done := DeleteRoundAtRight(parent, node);
      }
      next := parent;
      if !done {
        Recast(sentinel, next, next, next);
        NextSpans(next);
      }
    }

    // How far below the root a subtree is, at most.
    ghost function Rank(n: Node): int
      reads this, n
    {
      |S| + 1 - (n.hi - n.lo)
    }

    lemma NextSpans(next: Node)
      requires Linked() && next in nodes && ShortOrRoot(next)
      ensures next != sentinel.left ==> next.parent in nodes && next.hi - next.lo < next.parent.hi - next.parent.lo
    {
    }

    /** start is short of one black node, or is red, or is the root. */
    method DeleteFixup(start: Node)
      requires Linked() && NoRedRed(start, start) && ShortOrRoot(start)
      requires start in nodes || start == sentinel
      requires start != sentinel.left ==> sentinel.left.color == Black
      modifies nodes, sentinel`parent, sentinel`left, sentinel`right, sentinel`color, sentinel`bh
      ensures nodes == old(nodes) && S == old(S) && Linked() && RedBlack()
    {
      var node := start;
      while node != sentinel.left && node.color == Black
        invariant nodes == old(nodes) && S == old(S) && Linked() && (node in nodes || node == sentinel)
        invariant NoRedRed(node, node) && ShortOrRoot(node)
        invariant node != sentinel.left ==> sentinel.left.color == Black
        decreases if node == sentinel.left || node.color == Red then 0 else Rank(node.parent)
      {
        ShortSpans(node.parent, node);
        var done;
        done, node := FixupRound(node);
        if done {
          assert sentinel.left.color == Black;
          return;
        }
      }
      FinishBlack(node);
    }

    twostate lemma BlackenedFinish(z: Node, new parent: Node)
      requires old(Linked()) && Linked() && Blackened(z) && sentinel.color == Black
      requires sentinel.bh == old(sentinel.bh) && sentinel.left == old(sentinel.left)
      requires old(NoRedRed(z, z)) && old(ShortOrRoot(z)) && (z != sentinel.left ==> sentinel.left.color == Black)
      requires parent == if z == sentinel.left then sentinel else z.parent
      requires old(HeightsBut(parent, sentinel, sentinel))
      ensures RedBlack()
    {
      hide Indexed, Lefts, Rights, NoRedRed;
      BlackenedHeights(z, parent);
      BlackenedColors(z);
      if parent != sentinel {
        BlackenedParent(z, parent);
      }
    }

    // The parent, which was short on one side, is balanced again.
    twostate lemma BlackenedParent(z: Node, new parent: Node)
      requires old(Linked()) && Linked() && Blackened(z) && sentinel.bh == old(sentinel.bh)
      requires sentinel.left == old(sentinel.left) && z != sentinel.left && parent == z.parent && old(ShortOrRoot(z))
      ensures Balanced(parent)
    {
      hide HeightsBut;
    }

    lemma ShortHeights(node: Node)
      requires Linked() && ShortOrRoot(node)
      ensures HeightsBut(if node == sentinel.left then sentinel else node.parent, sentinel, sentinel)
    {
      hide HeightsBut;
    }

    method FinishBlack(node: Node)
      requires Linked() && NoRedRed(node, node) && ShortOrRoot(node) && (node in nodes || node == sentinel)
      requires node != sentinel.left ==> sentinel.left.color == Black && node.color == Red
      modifies node`color, node`bh
      ensures RedBlack()
    {
      ghost var red, parent := node.color == Red, if node == sentinel.left then sentinel else node.parent;
      ShortHeights(node);
      Blacken(node);
      if red {
        BlackenedFinish(node, parent);
      } else {
        Recast(node, node, sentinel, sentinel);
      }
    }

    // subst, which had at most one child, left the tree; the nodes after it moved one place down.
    twostate predicate Unlinked(subst: Node)
      reads this, nodes, sentinel
    {
      var k, p := old(subst.idx), old(subst.parent);
      var child := if old(subst.left) == sentinel then old(subst.right) else old(subst.left);
      && 0 <= k < |old(S)| && S == old(S)[..k] + old(S)[k + 1..]
      && subst in old(nodes) && nodes == old(nodes) - {subst}
      && (old(subst.left) == sentinel || old(subst.right) == sentinel)
      && (forall n {:trigger n in nodes} :: n in nodes ==>
            && n.idx == old(n.idx) - (if old(n.idx) > k then 1 else 0)
            && n.lo == old(n.lo) - (if old(n.lo) > k then 1 else 0)
            && n.hi == old(n.hi) - (if old(n.hi) > k then 1 else 0)
            && n.color == old(n.color) && n.bh == old(n.bh)
            && n.parent == (if n == child then p else old(n.parent))
            && n.left == (if n == p && old(p.left) == subst then child else old(n.left))
            && n.right == (if n == p && old(p.left) != subst then child else old(n.right)))
      && sentinel.left == (if p == sentinel then child else old(sentinel.left))
      && sentinel.right == old(sentinel.right)
      && sentinel.color == old(sentinel.color) && sentinel.bh == old(sentinel.bh)
    }

    twostate lemma UnlinkedIndexed(subst: Node)
      requires old(Linked()) && Unlinked(subst)
      ensures Indexed()
    {
      var k := old(subst.idx);
      forall i | 0 <= i < |S|
        ensures S[i] in nodes && S[i].idx == i
      {
        assert S[i] == if i < k then old(S[i]) else old(S[i + 1]);
      }
      forall n | n in nodes
        ensures 0 <= n.lo <= n.idx < n.hi <= |S| && S[n.idx] == n
      {
        assert old(0 <= n.lo <= n.idx < n.hi <= |S| && S[n.idx] == n);
        assert old(0 <= subst.lo <= subst.idx < subst.hi && S[subst.idx] == subst);
        UnlinkedSpan(subst, n);
      }
    }

    // A node whose span began or ended at the removed one would have to contain it.
    twostate lemma UnlinkedSpan(subst: Node, new n: Node)
      requires old(Linked()) && Unlinked(subst) && n in nodes
      ensures n.lo <= n.idx < n.hi
    {
      assert old(n.lo <= n.idx < n.hi && S[n.idx] == n);
      assert old(S[subst.idx] == subst);
    }

    twostate lemma UnlinkedLefts(subst: Node)
      requires old(Linked()) && Unlinked(subst)
      ensures Lefts()
    {
      var k, c, d := old(subst.idx), old(subst.left), old(subst.right);
      assert old(subst.lo <= subst.idx < subst.hi);
      assert if c == sentinel then old(subst.lo) == k else old(c.hi == k && c.lo == subst.lo);
      assert if d == sentinel then old(subst.hi) == k + 1 else old(d.lo == k + 1 && d.hi == subst.hi);
      forall n | n in nodes
        ensures if n.left == sentinel then n.lo == n.idx
            else n.left in nodes && n.left.parent == n && n.left.lo == n.lo && n.left.hi == n.idx
      {
        assert old(n.lo <= n.idx < n.hi);
        assert old(if n.left == sentinel then n.lo == n.idx
            else n.left in nodes && n.left.parent == n && n.left.lo == n.lo && n.left.hi == n.idx);
      }
    }

    twostate lemma UnlinkedRights(subst: Node)
      requires old(Linked()) && Unlinked(subst)
      ensures Rights()
    {
      var k, c, d := old(subst.idx), old(subst.left), old(subst.right);
      assert old(subst.lo <= subst.idx < subst.hi);
      assert if c == sentinel then old(subst.lo) == k else old(c.hi == k && c.lo == subst.lo);
      assert if d == sentinel then old(subst.hi) == k + 1 else old(d.lo == k + 1 && d.hi == subst.hi);
      forall n | n in nodes
        ensures if n.right == sentinel then n.hi == n.idx + 1
            else n.right in nodes && n.right.parent == n && n.right.lo == n.idx + 1 && n.right.hi == n.hi
      {
        assert old(n.lo <= n.idx < n.hi && S[n.idx] == n);
        assert old(if n.right == sentinel then n.hi == n.idx + 1
            else n.right in nodes && n.right.parent == n && n.right.lo == n.idx + 1 && n.right.hi == n.hi);
      }
    }

    twostate lemma UnlinkedParents(subst: Node)
      requires old(Linked()) && Unlinked(subst)
      ensures Parents()
    {
      var c, d, p := old(subst.left), old(subst.right), old(subst.parent);
      assert old(subst.lo <= subst.idx < subst.hi);
      assert old(if p == sentinel then sentinel.left == subst else p in nodes && (p.left == subst || p.right == subst));
      assert if c == sentinel then old(subst.lo == subst.idx)
        else old(c in nodes && c.parent == subst && c.lo == subst.lo);
      assert if d == sentinel then old(subst.hi == subst.idx + 1)
        else old(d in nodes && d.parent == subst && d.hi == subst.hi);
      forall n | n in nodes
        ensures if n.parent == sentinel then sentinel.left == n
            else n.parent in nodes && (n.parent.left == n || n.parent.right == n)
      {
        assert old(if n.parent == sentinel then sentinel.left == n
            else n.parent in nodes && (n.parent.left == n || n.parent.right == n));
      }
    }

    twostate lemma UnlinkedLinked(subst: Node)
      requires old(Linked()) && Unlinked(subst)
      ensures Linked()
    {
      UnlinkedIndexed(subst);
      UnlinkedLefts(subst);
      UnlinkedRights(subst);
      UnlinkedParents(subst);
    }

    method ShiftDown(subst: Node, child: Node)
      requires subst in nodes && sentinel !in nodes && 0 <= subst.idx < |S|
      requires child == if subst.left == sentinel then subst.right else subst.left
      requires subst.left == sentinel || subst.right == sentinel
      requires child == sentinel || (child in nodes && child != subst)
      requires subst.parent.left == subst || subst.parent.right == subst
      requires subst.parent == sentinel ==> sentinel.left == subst
      requires subst.parent != sentinel ==> subst.parent in nodes && subst.parent != subst
      modifies this, nodes, sentinel`parent, sentinel`left, sentinel`right
      ensures Unlinked(subst) && child.parent == old(subst.parent)
      ensures subst.color == old(subst.color) && subst.bh == old(subst.bh)
    {
      ghost var k, p := subst.idx, subst.parent;
      ParentRelink(child, subst);
      nodes := nodes - {subst};
      S := S[..k] + S[k + 1..];
      CloseGap(k);
    }

    // The places behind k move down by one.
    ghost method CloseGap(k: int)
      modifies nodes`idx, nodes`lo, nodes`hi
      ensures forall n {:trigger n in nodes} :: n in nodes ==>
        && n.idx == old(n.idx) - (if old(n.idx) > k then 1 else 0)
        && n.lo == old(n.lo) - (if old(n.lo) > k then 1 else 0)
        && n.hi == old(n.hi) - (if old(n.hi) > k then 1 else 0)
    {
      forall n | n in nodes {
        n.idx := if n.idx > k then n.idx - 1 else n.idx;
      }
      forall n | n in nodes {
        n.lo := if n.lo > k then n.lo - 1 else n.lo;
      }
      forall n | n in nodes {
        n.hi := if n.hi > k then n.hi - 1 else n.hi;
      }
    }

    twostate lemma UnlinkedHeights(subst: Node)
      requires old(Linked()) && Linked() && Unlinked(subst)
      requires old(HeightsBut(sentinel, sentinel, sentinel))
      ensures HeightsBut(if old(subst.color) == Red then sentinel else old(subst.parent), sentinel, sentinel)
    {
      assert old(Balanced(subst));
      forall n | n in nodes && (n != old(subst.parent) || old(subst.color) == Red)
        ensures Balanced(n)
      {
        assert old(Balanced(n));
      }
    }

    twostate lemma UnlinkedColors(subst: Node)
      requires old(Linked()) && Linked() && Unlinked(subst)
      requires old(NoRedRed(sentinel, sentinel))
      ensures var child := if old(subst.left) == sentinel then old(subst.right) else old(subst.left);
        NoRedRed(child, child)
    {
      var child := if old(subst.left) == sentinel then old(subst.right) else old(subst.left);
      forall n | n in nodes
        ensures OkRed(n, child, child)
      {
        assert old(OkRed(n, sentinel, sentinel));
        assert n != child ==> n.parent != subst;
      }
    }

    twostate lemma UnlinkedOther(subst: Node, new w: Node)
      requires old(Linked()) && Unlinked(subst) && old(allocated(w)) && w in nodes
      ensures w.idx == old(w.idx) - (if old(w.idx) > old(subst.idx) then 1 else 0)
      ensures var child := if old(subst.left) == sentinel then old(subst.right) else old(subst.left);
        w.left == (if old(w.left) == subst then child else old(w.left))
        && w.right == (if old(w.right) == subst then child else old(w.right))
    {
      assert old(w.left == subst || w.right == subst) ==> old(subst.parent) == w;
      assert old(subst.parent) == w ==> old(w.left) != old(w.right);
    }

    // What DeleteFixup needs once subst is out of the tree.
    twostate lemma UnlinkedShort(subst: Node)
      requires old(Linked()) && Linked() && Unlinked(subst)
      requires old(HeightsBut(sentinel, sentinel, sentinel)) && old(subst.color) == Black
      requires old(subst.parent) != sentinel
      requires HeightsBut(old(subst.parent), sentinel, sentinel)
      ensures var child := if old(subst.left) == sentinel then old(subst.right) else old(subst.left);
        Short(old(subst.parent), child) && child != sentinel.left
    {
      var p := old(subst.parent);
      var sibling := if old(p.left) == subst then old(p.right) else old(p.left);
      assert old(Balanced(subst)) && old(Balanced(p));
      assert sibling in nodes && sibling.bh == old(subst.bh) && sibling != subst;
      assert p in nodes && p.bh == old(p.bh) && p.color == old(p.color);
    }

    // subst took over the place, the color and all links of node.
    twostate predicate Replaced(node: Node, new subst: Node)
      reads this, nodes, sentinel, subst
    {
      var p := old(node.parent);
      && node in old(nodes) && subst !in old(nodes) && subst != sentinel && nodes == old(nodes) - {node} + {subst}
      && 0 <= old(node.idx) < |old(S)| && S == old(S)[old(node.idx) := subst]
      && subst.left == old(node.left) && subst.right == old(node.right) && subst.parent == p
      && subst.lo == old(node.lo) && subst.idx == old(node.idx) && subst.hi == old(node.hi)
      && subst.color == old(node.color) && subst.bh == old(node.bh)
      && (forall n {:trigger n in nodes} :: n in nodes && n != subst ==>
            && n.idx == old(n.idx) && n.lo == old(n.lo) && n.hi == old(n.hi) && n.color == old(n.color)
              && n.bh == old(n.bh)
            && n.parent == (if n == old(node.left) || n == old(node.right) then subst else old(n.parent))
            && n.left == (if n == p && old(p.left) == node then subst else old(n.left))
            && n.right == (if n == p && old(p.left) != node then subst else old(n.right)))
      && sentinel.left == (if p == sentinel then subst else old(sentinel.left))
      && sentinel.right == old(sentinel.right)
      && sentinel.color == old(sentinel.color) && sentinel.bh == old(sentinel.bh)
    }

    twostate lemma ReplacedIndexed(node: Node, new subst: Node)
      requires old(Linked()) && Replaced(node, subst)
      ensures Indexed()
    {
      assert old(0 <= node.lo <= node.idx < node.hi <= |S| && S[node.idx] == node);
      forall n | n in nodes
        ensures 0 <= n.lo <= n.idx < n.hi <= |S| && S[n.idx] == n
      {
        if n != subst {
          assert old(0 <= n.lo <= n.idx < n.hi <= |S| && S[n.idx] == n);
        }
      }
    }

    twostate lemma ReplacedLefts(node: Node, new subst: Node)
      requires old(Linked()) && Replaced(node, subst)
      ensures Lefts()
    {
      forall n | n in nodes
        ensures if n.left == sentinel then n.lo == n.idx
            else n.left in nodes && n.left.parent == n && n.left.lo == n.lo && n.left.hi == n.idx
      {
        var m := if n == subst then node else n;
        assert old(m.lo <= m.idx < m.hi);
        var c := old(m.left);
        assert c != sentinel ==> c in old(nodes) && old(c.parent) == m;
        assert c == node ==> m == old(node.parent);
      }
    }

    twostate lemma ReplacedRights(node: Node, new subst: Node)
      requires old(Linked()) && Replaced(node, subst)
      ensures Rights()
    {
      forall n | n in nodes
        ensures if n.right == sentinel then n.hi == n.idx + 1
            else n.right in nodes && n.right.parent == n && n.right.lo == n.idx + 1 && n.right.hi == n.hi
      {
        var m := if n == subst then node else n;
        assert old(m.lo <= m.idx < m.hi);
        var c := old(m.right);
        assert c != sentinel ==> c in old(nodes) && old(c.parent) == m;
        assert c == node ==> m == old(node.parent);
      }
    }

    twostate lemma ReplacedParents(node: Node, new subst: Node)
      requires old(Linked()) && Replaced(node, subst)
      ensures Parents()
    {
      forall n | n in nodes
        ensures if n.parent == sentinel then sentinel.left == n
            else n.parent in nodes && (n.parent.left == n || n.parent.right == n)
      {
        var m := if n == subst then node else n;
        assert old(if m.parent == sentinel then sentinel.left == m
            else m.parent in nodes && (m.parent.left == m || m.parent.right == m));
        var p := old(m.parent);
        if p == node {
          assert m == old(node.left) || m == old(node.right);
        } else {
          assert n.parent == p && m != old(node.left) && m != old(node.right);
        }
      }
    }

    twostate lemma ReplacedLinked(node: Node, new subst: Node)
      requires old(Linked()) && Replaced(node, subst)
      ensures Linked()
    {
      ReplacedIndexed(node, subst);
      ReplacedLefts(node, subst);
      ReplacedRights(node, subst);
      ReplacedParents(node, subst);
    }

    twostate lemma ReplacedHeights(node: Node, new subst: Node, new a: Node)
      requires old(Linked()) && Linked() && Replaced(node, subst)
      requires old(allocated(a)) && old(HeightsBut(a, sentinel, sentinel))
      ensures HeightsBut(if a == node then subst else a, sentinel, sentinel)
    {
      forall n | n in nodes && n != (if a == node then subst else a)
        ensures Balanced(n)
      {
        if n == subst {
          assert old(Balanced(node));
        } else {
          assert old(Balanced(n));
        }
      }
    }

    twostate lemma ReplacedColors(node: Node, new subst: Node, new e: Node)
      requires old(Linked()) && Linked() && Replaced(node, subst) && e != node && e != subst
      requires old(allocated(e)) && old(NoRedRed(e, e))
      ensures NoRedRed(e, e)
    {
      forall n | n in nodes
        ensures OkRed(n, e, e)
      {
        if n == subst {
          assert old(OkRed(node, e, e));
        } else {
          assert old(OkRed(n, e, e));
        }
      }
    }

    twostate lemma ReplacedShort(node: Node, new subst: Node, new p: Node, new child: Node)
      requires old(Linked()) && Linked() && Replaced(node, subst) && child != node && child != subst
      requires old(allocated(p)) && old(allocated(child)) && old(Short(p, child))
      requires HeightsBut(if p == node then subst else p, sentinel, sentinel)
      ensures Short(if p == node then subst else p, child) && child != sentinel.left
    {
      var q := if p == node then subst else p;
      assert q in nodes && q.color == old(p.color) && q.bh == old(p.bh) && old(p.right.bh) == q.right.bh by {
        hide HeightsBut;
      }
      assert child.bh == old(child.bh);
      hide Rights, Parents;
    }

    method TakePlace(node: Node, subst: Node)
      requires node in nodes && subst !in nodes && subst != sentinel && sentinel !in nodes && 0 <= node.idx < |S|
      requires node.left in nodes && node.left != node && node.right != node
      requires node.right in nodes || node.right == sentinel
      requires node.parent.left == node || node.parent.right == node
      requires if node.parent == sentinel then sentinel.left == node else node.parent in nodes && node.parent != node
      requires node.parent != node.left && (node.parent != node.right || node.parent == sentinel)
      modifies this, nodes, subst, sentinel`parent, sentinel`left, sentinel`right
      ensures Replaced(node, subst)
      ensures sentinel.parent == if old(node.right) == sentinel then subst else old(sentinel.parent)
    {
      Adopt(node, subst);
      ParentRelink(subst, node);
      nodes := nodes - {node} + {subst};
      S := S[node.idx := subst];
    }

    // The children of node become those of subst.
    method Adopt(node: Node, subst: Node)
      requires node in nodes && subst !in nodes && subst != sentinel && sentinel !in nodes && node.left in nodes
      requires node.left != node && node.right != node && (node.right in nodes || node.right == sentinel)
      modifies subst, node.left`parent, node.right`parent
      ensures subst.color == node.color && subst.left == node.left && subst.right == node.right
      ensures node.left.parent == subst && node.right.parent == subst
      ensures subst.lo == node.lo && subst.idx == node.idx && subst.hi == node.hi && subst.bh == node.bh
    {
      subst.color := node.color;
      subst.left := node.left;
      subst.left.parent := subst;
      subst.right := node.right;
      subst.right.parent := subst;
      subst.lo, subst.idx, subst.hi, subst.bh := node.lo, node.idx, node.hi, node.bh;
    }

    method BranchMin(start: Node) returns (node: Node)
      requires Linked() && start in nodes
      ensures node in nodes && node.left == sentinel && node.idx == start.lo
      ensures node == start || (node.parent in nodes && start.lo <= node.parent.idx < start.hi)
    {
      node := start;
      while node.left != sentinel
        invariant node in nodes && node.lo == start.lo && node.hi <= start.hi
        invariant node == start || (node.parent in nodes && start.lo <= node.parent.idx < start.hi)
        decreases node.hi - node.lo
      {
        node := node.left;
      }
    }

    // An unlinked tree is ready for DeleteFixup at the child that moved up.
    ghost predicate Reparable(child: Node, red: bool)
      reads this, child, nodes, sentinel`bh, sentinel`color, sentinel`left, sentinel`right
    {
      && Linked() && NoRedRed(child, child) && (child == sentinel.left || sentinel.left.color == Black)
      && (if red || child == sentinel.left then HeightsBut(sentinel, sentinel, sentinel)
        else Short(child.parent, child))
      && (red ==> child.color == Black)
    }

    twostate lemma UnlinkedReparable(subst: Node, new child: Node)
      requires old(Linked()) && old(RedBlack()) && Unlinked(subst) && child.parent == old(subst.parent)
      requires child == if old(subst.left) == sentinel then old(subst.right) else old(subst.left)
      ensures Reparable(child, old(subst.color) == Red)
      ensures old(subst.parent) == sentinel ==> child == sentinel.left
      ensures old(subst.parent) != sentinel ==> child != sentinel.left
    {
      assert child in nodes ==> old(OkRed(child, sentinel, sentinel));
      UnlinkedLinked(subst);
      UnlinkedColors(subst);
      UnlinkedHeights(subst);
      if old(subst.color) == Black && old(subst.parent) != sentinel {
        UnlinkedShort(subst);
      }
    }

    /** Takes a node with at most one child out of the tree and repairs nothing; w is any other node. */
    method Unlink(subst: Node, child: Node, ghost w: Node)
      requires Valid() && subst in nodes && (subst.left == sentinel || subst.right == sentinel)
      requires child == if subst.left == sentinel then subst.right else subst.left
      requires w in nodes
      modifies this, nodes, sentinel`parent, sentinel`left, sentinel`right
      ensures nodes == old(nodes) - {subst} && child.parent == old(subst.parent) && subst.color == old(subst.color)
      ensures 0 <= old(subst.idx) < |old(S)| && S == old(S)[..old(subst.idx)] + old(S)[old(subst.idx) + 1..]
      ensures Reparable(child, subst.color == Red) && (old(subst.parent) == sentinel <==> child == sentinel.left)
      ensures w != subst ==>
        && w.idx == old(w.idx) - (if old(w.idx) > old(subst.idx) then 1 else 0)
        && w.left == (if old(w.left) == subst then child else old(w.left))
        && w.right == (if old(w.right) == subst then child else old(w.right))
    {
      ShiftDown(subst, child);
      UnlinkedReparable(subst, child);
      if w != subst {
        UnlinkedOther(subst, w);
      }
    }

    twostate lemma ReplacedReparable(node: Node, new subst: Node, new child: Node)
      requires old(allocated(child)) && old(allocated(subst)) && old(Reparable(child, subst.color == Red))
      requires Replaced(node, subst)
      requires child != node && child != subst && old(child != sentinel.left) && (child in nodes || child == sentinel)
      requires old(child.parent) != sentinel
      requires child == sentinel ==> child.parent == if old(child.parent) == node then subst else old(child.parent)
      ensures Reparable(child, old(subst.color) == Red)
    {
      var p := old(child.parent);
      assert child in nodes ==> (child == old(node.left) || child == old(node.right) <==> p == node);
      ReplacedLinked(node, subst);
      ReplacedColors(node, subst, child);
      if old(subst.color) == Red {
        ReplacedHeights(node, subst, sentinel);
      } else {
        ReplacedHeights(node, subst, p);
        ReplacedShort(node, subst, p, child);
      }
    }

    /** subst, just unlinked, takes the place of node. */
    method Replace(node: Node, subst: Node, ghost child: Node)
      requires Reparable(child, subst.color == Red) && child != sentinel.left
      requires node in nodes && subst !in nodes && subst != sentinel && node.left != sentinel
      requires child != node && child != subst && child.parent in nodes && (child in nodes || child == sentinel)
      requires child == sentinel && child.parent == node ==> node.right == sentinel
      requires child == sentinel && child.parent != node ==> node.right != sentinel
      modifies this, nodes, subst, sentinel`parent, sentinel`left, sentinel`right
      ensures nodes == old(nodes) - {node} + {subst} && 0 <= old(node.idx) < |old(S)|
      ensures S == old(S)[old(node.idx) := subst]
      ensures Reparable(child, old(subst.color) == Red)
    {
      TakePlace(node, subst);
      ReplacedReparable(node, subst, child);
    }

    // The end of a deletion: only a black node leaves the heights uneven.
    method Repair(child: Node, color: Color)
      requires Reparable(child, color == Red) && (child in nodes || child == sentinel)
      modifies nodes, sentinel`parent, sentinel`left, sentinel`right, sentinel`color, sentinel`bh
      ensures nodes == old(nodes) && S == old(S) && Linked() && RedBlack()
    {
      if color == Black {
        DeleteFixup(child);
      } else {
        Recast(child, child, sentinel, sentinel);
      }
    }

    // Deletion of a node with at most one child.
    method DeleteSimple(node: Node)
      requires Valid() && node in nodes && (node.left == sentinel || node.right == sentinel)
      modifies this, nodes, sentinel
      ensures Linked() && RedBlack() && nodes == old(nodes) - {node}
      ensures 0 <= old(node.idx) < |old(S)| && S == old(S)[..old(node.idx)] + old(S)[old(node.idx) + 1..]
    {
      var child := if node.left == sentinel then node.right else node.left;
      assert node.parent == sentinel ==> node.color == Black;
      assert child in nodes ==> OkRed(child, sentinel, sentinel);
      Unlink(node, child, node);
      Repair(child, node.color);
    }

    lemma SuccessorShape(node: Node, subst: Node)
      requires Linked() && node in nodes && node.right != sentinel && node.left != sentinel
      requires subst in nodes && subst.left == sentinel && subst.idx == node.idx + 1
      ensures 0 <= node.idx < |S| - 1 && S[node.idx + 1] == subst && subst != node && node.left != subst
      ensures subst.parent in nodes && subst.right != node && subst.right != subst
      ensures subst.parent == node <==> node.right == subst
      ensures subst.right in nodes ==> subst.right.idx >= node.idx + 2
    {
      assert S[node.idx] == node && S[subst.idx] == subst && sentinel.left.lo == 0;
      assert subst.lo == subst.idx > 0;
    }

    // The first half of a two-child deletion: the successor leaves its own place.
    method UnlinkSuccessor(node: Node, subst: Node, child: Node)
      requires Valid() && node in nodes && node.left != sentinel && node.right != sentinel && node.left != subst
      requires subst in nodes && subst.left == sentinel && subst != node && child == subst.right && child != node
      requires 0 <= node.idx < |S| - 1 && subst.idx == node.idx + 1
      requires subst.parent in nodes && (subst.parent == node <==> node.right == subst)
      modifies this, nodes, sentinel`parent, sentinel`left, sentinel`right
      ensures Reparable(child, subst.color == Red) && child != sentinel.left && subst.color == old(subst.color)
      ensures nodes == old(nodes) - {subst} && child.parent == old(subst.parent)
      ensures node.left == old(node.left) && node.idx == old(node.idx)
      ensures node.right == if old(node.right) == subst then child else old(node.right)
      ensures S == old(S)[..old(node.idx) + 1] + old(S)[old(node.idx) + 2..]
    {
      Unlink(subst, child, node);
    }

    static lemma Successor(s: seq<Node>, k: nat)
      requires k + 1 < |s|
      ensures (s[..k + 1] + s[k + 2..])[k := s[k + 1]] == s[..k] + s[k + 1..]
    {
    }

    method FindSuccessor(node: Node) returns (subst: Node)
      requires Valid() && node in nodes && node.left != sentinel && node.right != sentinel
      ensures subst in nodes && subst.left == sentinel && subst != node && node.left != subst
      ensures 0 <= node.idx < |S| - 1 && S[node.idx + 1] == subst && subst.idx == node.idx + 1
      ensures subst.right != node && subst.right != subst && (subst.right in nodes || subst.right == sentinel)
      ensures subst.parent in nodes && subst.parent != subst
      ensures (subst.parent == node <==> node.right == subst) && sentinel !in nodes
    {
      subst := BranchMin(node.right);
      SuccessorShape(node, subst);
    }

    // Deletion of a node with two children: its successor takes its place.
    method DeleteInner(node: Node)
      requires Valid() && node in nodes && node.left != sentinel && node.right != sentinel
      modifies this, nodes, sentinel
      ensures Linked() && RedBlack() && nodes == old(nodes) - {node}
      ensures 0 <= old(node.idx) < |old(S)| && S == old(S)[..old(node.idx)] + old(S)[old(node.idx) + 1..]
    {
      hide Valid, Linked, RedBlack, Reparable;
      ghost var k := node.idx;
      var subst := FindSuccessor(node);
      var child := subst.right;
      Successor(S, k);
      UnlinkSuccessor(node, subst, child);
      var color := subst.color;
      Replace(node, subst, child);
      Repair(child, color);
    }

    /** Deletes a member: the in-order sequence loses exactly that node and the tree stays red-black. */
    method Delete(node: Node)
      requires Valid() && node in nodes
      modifies this, nodes, sentinel
      ensures Valid() && nodes == old(nodes) - {node}
      ensures 0 <= old(node.idx) < |old(S)| && old(S)[old(node.idx)] == node
      ensures S == old(S)[..old(node.idx)] + old(S)[old(node.idx) + 1..]
    {
      assert S[node.idx] == node;
      if node.left == sentinel || node.right == sentinel {
        DeleteSimple(node);
      } else {
        DeleteInner(node);
      }
    }

    // x became a red leaf below p, on the left or on the right; the nodes after it moved one place up.
    twostate predicate Attached(x: Node, new p: Node, new atLeft: bool)
      reads this, nodes, sentinel, x
    {
      && (p in old(nodes) || p == sentinel) && x !in old(nodes) && x != sentinel && nodes == old(nodes) + {x}
      && var k := if p == sentinel then 0 else if atLeft then old(p.idx) else old(p.idx) + 1;
      && (p == sentinel ==> atLeft && old(S) == [] && old(sentinel.left) == sentinel)
      && (p != sentinel && atLeft ==> old(p.left) == sentinel)
      && (p != sentinel && !atLeft ==> old(p.right) == sentinel)
      && 0 <= k <= |old(S)| && S == old(S)[..k] + [x] + old(S)[k..]
      && x.left == sentinel && x.right == sentinel && x.parent == p && x.color == Red && x.bh == 0
      && x.lo == k && x.idx == k && x.hi == k + 1
      && (forall n {:trigger n in nodes} :: n in nodes && n != x ==>
            && n.idx == old(n.idx) + (if old(n.idx) >= k then 1 else 0)
            && n.lo == old(n.lo) + (if old(n.lo) > k || (old(n.lo) == k && !atLeft) then 1 else 0)
            && n.hi == old(n.hi) + (if old(n.hi) > k || (old(n.hi) == k && !atLeft) then 1 else 0)
            && n.color == old(n.color) && n.bh == old(n.bh) && n.parent == old(n.parent)
            && n.left == (if n == p && atLeft then x else old(n.left))
            && n.right == (if n == p && !atLeft then x else old(n.right)))
      && sentinel.left == (if p == sentinel then x else old(sentinel.left))
      && sentinel.right == old(sentinel.right)
      && sentinel.color == old(sentinel.color) && sentinel.bh == old(sentinel.bh)
    }

    twostate lemma AttachedSpan(x: Node, new p: Node, new atLeft: bool, new n: Node)
      requires old(Indexed()) && Attached(x, p, atLeft) && n in nodes && n != x
      ensures 0 <= n.lo <= n.idx < n.hi <= |S| && S[n.idx] == n
    {
      assert old(0 <= n.lo <= n.idx < n.hi <= |S| && S[n.idx] == n);
      assert S[n.idx] == old(S)[old(n.idx)];
    }

    twostate lemma AttachedSeq(x: Node, new p: Node, new atLeft: bool, new i: int)
      requires old(Indexed()) && Attached(x, p, atLeft) && 0 <= i < |S|
      ensures S[i] in nodes && S[i].idx == i
    {
      var k := x.idx;
      assert S[i] == if i < k then old(S[i]) else if i == k then x else old(S[i - 1]);
    }

    twostate lemma AttachedIndexed(x: Node, new p: Node, new atLeft: bool)
      requires old(Indexed()) && old(sentinel !in nodes) && Attached(x, p, atLeft)
      ensures Indexed()
    {
      forall i | 0 <= i < |S|
        ensures S[i] in nodes && S[i].idx == i
      {
        AttachedSeq(x, p, atLeft, i);
      }
      forall n | n in nodes
        ensures 0 <= n.lo <= n.idx < n.hi <= |S| && S[n.idx] == n
      {
        if n != x {
          AttachedSpan(x, p, atLeft, n);
        }
      }
    }

    twostate lemma AttachedLefts(x: Node, new p: Node, new atLeft: bool)
      requires old(Linked()) && Attached(x, p, atLeft)
      ensures Lefts()
    {
      forall n | n in nodes
        ensures if n.left == sentinel then n.lo == n.idx
            else n.left in nodes && n.left.parent == n && n.left.lo == n.lo && n.left.hi == n.idx
      {
        if n != x {
          assert old(n.lo <= n.idx < n.hi && S[n.idx] == n);
          assert p != sentinel ==> old(p.lo <= p.idx < p.hi && S[p.idx] == p);
          assert old(if n.left == sentinel then n.lo == n.idx
            else n.left in nodes && n.left.parent == n && n.left.lo == n.lo && n.left.hi == n.idx);
        }
      }
    }

    twostate lemma AttachedRights(x: Node, new p: Node, new atLeft: bool)
      requires old(Linked()) && Attached(x, p, atLeft)
      ensures Rights()
    {
      forall n | n in nodes
        ensures if n.right == sentinel then n.hi == n.idx + 1
            else n.right in nodes && n.right.parent == n && n.right.lo == n.idx + 1 && n.right.hi == n.hi
      {
        if n != x {
          AttachedRightOf(x, p, atLeft, n);
        }
      }
    }

    twostate lemma AttachedRightOf(x: Node, new p: Node, new atLeft: bool, new n: Node)
      requires old(Indexed()) && old(Rights()) && Attached(x, p, atLeft) && n in nodes && n != x && sentinel !in nodes
      ensures if n.right == sentinel then n.hi == n.idx + 1
            else n.right in nodes && n.right.parent == n && n.right.lo == n.idx + 1 && n.right.hi == n.hi
    {
      assert old(n.lo <= n.idx < n.hi && S[n.idx] == n);
      assert p != sentinel ==> old(S[p.idx] == p);
    }

    twostate lemma AttachedParents(x: Node, new p: Node, new atLeft: bool)
      requires old(Linked()) && Attached(x, p, atLeft)
      ensures Parents()
    {
      if p != sentinel {
        var r := old(sentinel.left);
        assert old(r.lo == 0 && r.hi == |S| && p.lo <= p.idx < p.hi <= |S|);
      }
    }

    twostate lemma AttachedLinked(x: Node, new p: Node, new atLeft: bool)
      requires old(Linked()) && Attached(x, p, atLeft)
      ensures Linked()
    {
      AttachedIndexed(x, p, atLeft);
      AttachedLefts(x, p, atLeft);
      AttachedRights(x, p, atLeft);
      AttachedParents(x, p, atLeft);
    }

    twostate lemma AttachedHeights(x: Node, new p: Node, new atLeft: bool)
      requires old(Linked()) && Linked() && old(RedBlack()) && Attached(x, p, atLeft)
      ensures HeightsBut(sentinel, sentinel, sentinel)
    {
      forall n | n in nodes
        ensures Balanced(n)
      {
        if n != x {
          assert old(Balanced(n));
        }
      }
    }

    twostate lemma AttachedColors(x: Node, new p: Node, new atLeft: bool)
      requires old(Linked()) && Linked() && old(RedBlack()) && Attached(x, p, atLeft)
      ensures NoRedRed(x, sentinel)
    {
      forall n | n in nodes
        ensures OkRed(n, x, sentinel)
      {
        if n != x {
          assert old(OkRed(n, sentinel, sentinel));
        }
      }
    }

    method AttachLeaf(x: Node, p: Node, atLeft: bool)
      requires Linked() && RedBlack() && x !in nodes && x != sentinel && (p in nodes || p == sentinel)
      requires x.left == sentinel && x.right == sentinel && x.color == Red
      requires if p == sentinel then atLeft && sentinel.left == sentinel
               else if atLeft then p.left == sentinel else p.right == sentinel
      modifies this, nodes, x, sentinel`left
      ensures Linked() && HeightsBut(sentinel, sentinel, sentinel) && NoRedRed(x, sentinel) && x.color == Red
      ensures sentinel.left == x || sentinel.left.color == Black
      ensures nodes == old(nodes) + {x}
      ensures var k := if p == sentinel then 0 else if atLeft then old(p.idx) else old(p.idx) + 1;
        0 <= k <= |old(S)| && S == old(S)[..k] + [x] + old(S)[k..]
    {
      Attach(x, p, atLeft);
      AttachedLinked(x, p, atLeft);
      AttachedHeights(x, p, atLeft);
      AttachedColors(x, p, atLeft);
    }

    // The places from k on move up by one.
    ghost method MakeRoom(k: int, atLeft: bool)
      modifies nodes`idx, nodes`lo, nodes`hi
      ensures forall n {:trigger n in nodes} :: n in nodes ==>
        && n.idx == old(n.idx) + (if old(n.idx) >= k then 1 else 0)
        && n.lo == old(n.lo) + (if old(n.lo) > k || (old(n.lo) == k && !atLeft) then 1 else 0)
        && n.hi == old(n.hi) + (if old(n.hi) > k || (old(n.hi) == k && !atLeft) then 1 else 0)
    {
      forall n | n in nodes {
        n.idx := if n.idx >= k then n.idx + 1 else n.idx;
      }
      forall n | n in nodes {
        n.lo := if n.lo > k || (n.lo == k && !atLeft) then n.lo + 1 else n.lo;
      }
      forall n | n in nodes {
        n.hi := if n.hi > k || (n.hi == k && !atLeft) then n.hi + 1 else n.hi;
      }
    }

    method Hang(x: Node, p: Node, atLeft: bool)
      modifies x`parent, (if atLeft then {p} else {})`left, (if atLeft then {} else {p})`right
      ensures x.parent == p && p.left == (if atLeft then x else old(p.left))
      ensures p.right == if atLeft then old(p.right) else x
    {
      if atLeft {
        p.left := x;
      } else {
        p.right := x;
      }
      x.parent := p;
    }

    method Attach(x: Node, p: Node, atLeft: bool)
      requires x !in nodes && x != sentinel && sentinel !in nodes && (p in nodes || p == sentinel)
      requires x.left == sentinel && x.right == sentinel && x.color == Red
      requires if p == sentinel then atLeft && S == [] && sentinel.left == sentinel
               else 0 <= p.idx < |S| && if atLeft then p.left == sentinel else p.right == sentinel
      modifies this, nodes, x, sentinel`left
      ensures Attached(x, p, atLeft)
    {
      ghost var k := if p == sentinel then 0 else if atLeft then p.idx else p.idx + 1;
      Hang(x, p, atLeft);
      MakeRoom(k, atLeft);
      AddLeaf(x, k);
    }

    ghost method AddLeaf(x: Node, k: nat)
      requires k <= |S|
      modifies this`nodes, this`S, x`lo, x`idx, x`hi, x`bh
      ensures x.lo == k && x.idx == k && x.hi == k + 1 && x.bh == 0
      ensures nodes == old(nodes) + {x} && S == old(S)[..k] + [x] + old(S)[k..]
    {
      x.lo, x.idx, x.hi, x.bh := k, k, k + 1, 0;
      nodes := nodes + {x};
      S := S[..k] + [x] + S[k..];
    }

    // Descends from the root to the free place of a key: after everything not greater, before the rest.
    method FindPlace(key: int) returns (p: Node, atLeft: bool, ghost k: int)
      requires Linked() && Sorted(S)
      ensures p in nodes || p == sentinel
      ensures if p == sentinel then atLeft && S == [] && sentinel.left == sentinel && k == 0
              else if atLeft then p.left == sentinel && k == p.idx else p.right == sentinel && k == p.idx + 1
      ensures 0 <= k <= |S|
      ensures forall i :: 0 <= i < k ==> S[i].key <= key
      ensures forall i :: k <= i < |S| ==> key < S[i].key
    {
      p, atLeft := sentinel, true;
      ghost var lo, hi := 0, |S|;
      var node := sentinel.left;
      while node != sentinel
        invariant 0 <= lo <= hi <= |S| && (p in nodes || p == sentinel)
        invariant if p == sentinel then atLeft && node == sentinel.left && lo == 0 && hi == |S|
                  else if atLeft then node == p.left && lo == p.lo && hi == p.idx
                  else node == p.right && lo == p.idx + 1 && hi == p.hi
        invariant node == sentinel || node in nodes
        invariant forall i :: 0 <= i < lo ==> S[i].key <= key
        invariant forall i :: hi <= i < |S| ==> key < S[i].key
        decreases hi - lo
      {
        p := node;
        assert S[p.idx] == p && p.lo == lo && p.hi == hi;
        atLeft := key < p.key;
        if atLeft {
          hi := p.idx;
          node := p.left;
        } else {
          lo := p.idx + 1;
          node := p.right;
        }
      }
      k := lo;
    }

    static lemma SortedInsert(s: seq<Node>, k: nat, x: Node)
      requires Sorted(s) && k <= |s|
      requires forall i :: 0 <= i < k ==> s[i].key <= x.key
      requires forall i :: k <= i < |s| ==> x.key < s[i].key
      ensures Sorted(s[..k] + [x] + s[k..])
    {
      var t := s[..k] + [x] + s[k..];
      forall i, j | 0 <= i < j < |t|
        ensures t[i].key <= t[j].key
      {
        assert t[i] == if i < k then s[i] else if i == k then x else s[i - 1];
        assert t[j] == if j < k then s[j] else if j == k then x else s[j - 1];
      }
    }

    method Place(newNode: Node) returns (ghost k: int)
      requires Valid() && newNode !in nodes && newNode != sentinel
      requires newNode.left == sentinel && newNode.right == sentinel && newNode.color == Red
      modifies this, nodes, newNode, sentinel`left
      ensures Linked() && HeightsBut(sentinel, sentinel, sentinel)
      ensures NoRedRed(newNode, sentinel) && newNode.color == Red
      ensures sentinel.left == newNode || sentinel.left.color == Black
      ensures nodes == old(nodes) + {newNode} && 0 <= k <= |old(S)|
      ensures S == old(S)[..k] + [newNode] + old(S)[k..] && Sorted(S)
      ensures forall i :: 0 <= i < k ==> old(S)[i].key <= newNode.key
      ensures forall i :: k <= i < |old(S)| ==> newNode.key < old(S)[i].key
    {
      var p, atLeft;
      p, atLeft, k := FindPlace(newNode.key);
      SortedInsert(S, k, newNode);
      AttachLeaf(newNode, p, atLeft);
    }

    /** Inserts a new node after every member that does not compare greater; the rest keeps its order. */
    method Insert(newNode: Node) returns (ghost k: int)
      requires Valid() && newNode !in nodes && newNode != sentinel
      modifies this, nodes, newNode, sentinel
      ensures Valid() && nodes == old(nodes) + {newNode}
      ensures 0 <= k <= |old(S)| && S == old(S)[..k] + [newNode] + old(S)[k..]
      ensures forall i :: 0 <= i < k ==> old(S)[i].key <= newNode.key
      ensures forall i :: k <= i < |old(S)| ==> newNode.key < old(S)[i].key
    {
      MakeLeaf(newNode);
      k := Place(newNode);
      InsertFixup(newNode);
      BlackenRoot();
    }

    method MakeLeaf(x: Node)
      requires Valid() && x !in nodes && x != sentinel
      modifies x`left, x`right, x`color
      ensures Valid() && x.left == sentinel && x.right == sentinel && x.color == Red
    {
      hide Valid;
      x.left := sentinel;
      x.right := sentinel;
      x.color := Red;
    }

    method BlackenRoot()
      requires Linked() && HeightsBut(sentinel, sentinel, sentinel)
      requires NoRedRed(sentinel, sentinel) && sentinel.left in nodes
      modifies sentinel.left`color, sentinel.left`bh
      ensures RedBlack()
    {
      var node := sentinel.left;
      Recast(sentinel, sentinel, node, node);
      Blacken(node);
      if old(node.color) == Red {
        BlackenedHeights(node, sentinel);
        BlackenedColors(node);
      }
    }

    /** Takes the leftmost remaining node out without rebalancing; next is where the following call starts. */
    method DestroyNext(next: Node) returns (node: Node, next': Node)
      requires Linked() && next in nodes && next.lo == 0
      modifies this, nodes, sentinel`parent, sentinel`left, sentinel`right
      ensures Linked() && |old(S)| > 0 && node == old(S)[0] && S == old(S)[1..] && nodes == old(nodes) - {node}
      ensures if S == [] then next' == sentinel else next' in nodes && next'.lo == 0
    {
      node := next;
      while node.left != sentinel
        invariant node in nodes && node.lo == 0
        decreases node.hi
      {
        node := node.left;
      }
      assert S[0] == node;
      var subst := node.right;
      var parent := node.parent;
      assert parent in nodes ==> parent.lo == 0 && parent.left == node;
      TakeFirst(node, subst, if subst == sentinel then parent else subst);
      next' := if subst == sentinel then parent else subst;
    }

    method TakeFirst(node: Node, subst: Node, ghost next: Node)
      requires Linked() && node in nodes && node.left == sentinel && node.idx == 0 && subst == node.right
      requires next == if subst == sentinel then node.parent else subst
      modifies this, nodes, sentinel`parent, sentinel`left, sentinel`right
      ensures Linked() && |old(S)| > 0 && S == old(S)[1..] && nodes == old(nodes) - {node}
      ensures if S == [] then next == sentinel else next in nodes && next.lo == 0
    {
      hide Indexed, Lefts, Rights, Parents;
      MayShift(node, subst);
      FirstNext(node, next);
      ShiftDown(node, subst);
      UnlinkedLinked(node);
      assert S == old(S)[1..];
    }

    lemma MayShift(node: Node, subst: Node)
      requires Linked() && node in nodes && node.left == sentinel && subst == node.right
      ensures sentinel !in nodes && 0 <= node.idx < |S| && (subst == sentinel || (subst in nodes && subst != node))
      ensures node.parent.left == node || node.parent.right == node
      ensures node.parent == sentinel ==> sentinel.left == node
      ensures node.parent != sentinel ==> node.parent in nodes && node.parent != node
    {
    }

    // Behind the first node comes its right subtree, or its parent, or nothing.
    lemma FirstNext(node: Node, next: Node)
      requires Linked() && node in nodes && node.left == sentinel && node.idx == 0
      requires next == if node.right == sentinel then node.parent else node.right
      ensures if next == sentinel then |S| == 1 else next in nodes && next != node && next.lo <= 1 && |S| > 1
      ensures next.lo >= 0 || next == sentinel
    {
      assert S[0] == node && (next in nodes ==> S[next.idx] == next);
    }

    lemma MembersAreListed()
      requires Linked()
      ensures forall n :: n in nodes <==> n in S
    {
      forall n | n in nodes
        ensures n in S
      {
        assert S[n.idx] == n;
      }
    }

    /** The destruction loop.  Each returned node is released at once, which may leave anything in its fields. */
    method DestroyAll(junk: Node) returns (out: seq<Node>)
      requires Linked() && RedBlack()
      modifies this, nodes, sentinel
      ensures out == old(S) && S == [] && nodes == {}
    {
      assert sentinel.left in nodes ==> sentinel.left.idx < |S|;
      hide Indexed, Lefts, Rights, Parents, RedBlack;
      out := [];
      var next := sentinel.left;
      while next != sentinel
        invariant Linked() && nodes <= old(nodes) && out + S == old(S)
        invariant if S == [] then next == sentinel else next in nodes && next.lo == 0
        decreases |S|
      {
        var node;
        FirstMoves(out, S);
        node, next := DestroyNext(next);
        out := out + [node];
        Scribble(node, junk);
      }
      MembersAreListed();
    }

    static lemma FirstMoves(out: seq<Node>, s: seq<Node>)
      ensures s != [] ==> out + s == (out + [s[0]]) + s[1..]
    {
    }

    // The owner releases a node that has left the tree.
    method Scribble(node: Node, junk: Node)
      requires Linked() && node !in nodes && node != sentinel
      modifies node
      ensures Linked()
    {
      node.left, node.right, node.parent, node.color := junk, junk, junk, Red;
    }

    // ---------- what the invariant means for the links themselves

    ghost function InOrder(n: Node): (s: seq<Node>)
      requires Linked() && (n in nodes || n == sentinel)
      reads this, nodes, sentinel`left, sentinel`right
      decreases if n == sentinel then 0 else n.hi - n.lo
    {
      if n == sentinel then [] else InOrder(n.left) + [n] + InOrder(n.right)
    }

    static lemma Slices(s: seq<Node>, lo: int, i: int, hi: int)
      requires 0 <= lo <= i < hi <= |s|
      ensures s[lo..hi] == s[lo..i] + [s[i]] + s[i + 1..hi]
    {
    }

    lemma ChildSpans(n: Node)
      requires Linked() && (n in nodes || n == sentinel)
      ensures n == sentinel.left ==> if n == sentinel then S == [] else n.lo == 0 && n.hi == |S|
      ensures sentinel !in nodes
      ensures n in nodes ==>
        && 0 <= n.lo <= n.idx < n.hi <= |S| && S[n.idx] == n
        && (if n.left == sentinel then n.lo == n.idx else n.left in nodes && n.left.lo == n.lo && n.left.hi == n.idx)
        && (if n.right == sentinel then n.hi == n.idx + 1
            else n.right in nodes && n.right.lo == n.idx + 1 && n.right.hi == n.hi)
    {
    }

    lemma InOrderOf(n: Node)
      requires Linked() && (n in nodes || n == sentinel)
      ensures InOrder(n) == if n == sentinel then [] else InOrder(n.left) + [n] + InOrder(n.right)
    {
    }

    // Following the child links from n lists its slice of S.
    lemma {:induction false} InOrderIsSlice(n: Node, lo: int, hi: int)
      requires Linked() && 0 <= lo <= hi <= |S|
      requires if n == sentinel then lo == hi else n in nodes && n.lo == lo && n.hi == hi
      ensures InOrder(n) == S[lo..hi]
      decreases if n == sentinel then 0 else n.hi - n.lo
    {
      hide Linked, InOrder;
      InOrderOf(n);
      if n != sentinel {
        ChildSpans(n);
        InOrderIsSlice(n.left, lo, n.idx);
        InOrderIsSlice(n.right, n.idx + 1, hi);
        Slices(S, lo, n.idx, hi);
      }
    }

    /** Following the child links from the root lists exactly the sequence S. */
    lemma InOrderIsSequence()
      requires Linked()
      ensures InOrder(sentinel.left) == S
    {
      ChildSpans(sentinel.left);
      InOrderIsSlice(sentinel.left, 0, |S|);
      assert S[..|S|] == S;
    }

    // The nodes met going from n down to a leaf; at each one, the next is its left or its right child.
    ghost predicate Descent(n: Node, p: seq<Node>)
      requires Linked() && (n in nodes || n == sentinel)
      reads this, nodes, sentinel`left, sentinel`right
      decreases |p|
    {
      if p == [] then n == sentinel
      else n == p[0] && n != sentinel && (Descent(n.left, p[1..]) || Descent(n.right, p[1..]))
    }

    ghost function Blacks(p: seq<Node>): (b: nat)
      reads p
    {
      if p == [] then 0 else (if p[0].color == Black then 1 else 0) + Blacks(p[1..])
    }

    /** Every way down from n meets n.bh black nodes and at most twice as many nodes in all. */
    lemma {:induction false} EqualBlacks(n: Node, p: seq<Node>)
      requires Linked() && RedBlack() && (n in nodes || n == sentinel) && Descent(n, p)
      ensures Blacks(p) == n.bh
      ensures |p| <= 2 * n.bh + (if n.color == Red then 1 else 0)
      decreases |p|
    {
      if p != [] {
        assert Balanced(n);
        if Descent(n.left, p[1..]) {
          EqualBlacks(n.left, p[1..]);
          assert n.left in nodes ==> OkRed(n.left, sentinel, sentinel);
        } else {
          EqualBlacks(n.right, p[1..]);
          assert n.right in nodes ==> OkRed(n.right, sentinel, sentinel);
        }
      }
    }

    lemma {:induction false} Bushy(n: Node)
      requires Linked() && RedBlack() && (n in nodes || n == sentinel)
      ensures Pow2.Pow(n.bh) <= (if n == sentinel then 0 else n.hi - n.lo) + 1
      decreases if n == sentinel then 0 else n.hi - n.lo
    {
      if n != sentinel {
        assert Balanced(n);
        Bushy(n.left);
        Bushy(n.right);
      }
    }

    /** The tree is balanced: with N members no way down is longer than 2 log2(N + 1). */
    lemma DepthIsLogarithmic(p: seq<Node>)
      requires Valid() && Descent(sentinel.left, p)
      ensures exists b: nat :: Blacks(p) == b && |p| <= 2 * b && Pow2.Pow(b) <= |S| + 1
    {
      EqualBlacks(sentinel.left, p);
      Bushy(sentinel.left);
      assert sentinel.left.color == Black;
      var b: nat := sentinel.left.bh;
      assert Blacks(p) == b && |p| <= 2 * b && Pow2.Pow(b) <= |S| + 1;
    }
  }
}
