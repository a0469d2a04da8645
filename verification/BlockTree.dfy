/** The blocks of a pool in the red-black tree, by start address: src/nxt_mp.c:234-256 and 659-727. */
module BlockTree {
  import opened Bytes
  import RbTree

  /** Block k holds address p. */
  ghost predicate Holds(spans: map<nat, nat>, k: nat, p: nat) {
    k in spans && k <= p < k + spans[k]
  }

  ghost predicate Disjoint(spans: map<nat, nat>) {
    forall a, b :: a in spans && b in spans && a < b ==> a + spans[a] <= b
  }

  /** At most one block holds an address. */
  lemma OneHolder(spans: map<nat, nat>, a: nat, b: nat, p: nat)
    requires Disjoint(spans) && Holds(spans, a, p) && Holds(spans, b, p)
    ensures a == b
  {
  }

  /** The comparison drops the lowest bit of an address, which no allocation has set. */
  predicate Even(a: nat) { 2 * (a / 2) == a }

  class Index {
    const tree: RbTree.Tree
    var node: map<nat, RbTree.Node>  // the node in the descriptor of the block that starts at an address

    ghost function Footprint(): (r: set<object>)
      reads this, tree
    {
      {this, tree, tree.sentinel} + tree.nodes
    }

    // Each block has the node whose key is its address without the lowest bit, and there are no other nodes.
    ghost predicate Matched()
      reads this, tree
    {
      && (forall a :: a in node ==> a == 2 * node[a].key && node[a] in tree.nodes)
      && (forall n :: n in tree.nodes ==> n.key >= 0 && 2 * n.key in node && node[2 * n.key] == n)
    }

    ghost predicate Valid()
      reads this, tree, tree.nodes, tree.sentinel
    {
      Matched() && tree.Valid()
    }

    constructor ()
      ensures Valid() && node == map[] && fresh(Footprint())
    {
      var compare := new RbTree.Node(0);
      tree := new RbTree.Tree(compare);
      node := map[];
    }

    // The order of the sequence is the order of the addresses.
    lemma InAddressOrder(a: nat, b: nat)
      requires Matched() && tree.Linked() && RbTree.Sorted(tree.S) && a in node && b in node && a < b
      ensures node[a].idx < node[b].idx
    {
      assert tree.S[node[a].idx] == node[a] && tree.S[node[b].idx] == node[b];
    }

    /** nxt_mp_find_block: goes left of blocks that begin behind p, right of blocks that end before it. */
    method FindBlock(spans: map<nat, nat>, p: nat) returns (r: Option<nat>)
      requires Valid() && node.Keys == spans.Keys && Disjoint(spans)
      ensures r.Some? ==> Holds(spans, r.value, p)
      ensures r.None? ==> forall k :: !Holds(spans, k, p)
    {
      var n := tree.sentinel.left;
      ghost var lo, hi := 0, |tree.S|;
      while n != tree.sentinel
        invariant if n == tree.sentinel then lo == hi else n in tree.nodes && n.lo == lo && n.hi == hi
        invariant forall k :: Holds(spans, k, p) ==> k in node && lo <= node[k].idx < hi
        decreases hi - lo
      {
        var start := 2 * n.key;
        forall k: nat | Holds(spans, k, p)
          ensures p < start ==> node[k].idx < n.idx
          ensures p >= start + spans[start] ==> n.idx < node[k].idx
        {
          if k < start {
            InAddressOrder(k, start);
          } else if start < k {
            InAddressOrder(start, k);
          }
        }
        if p < start {
          hi := n.idx;
          n := n.left;
        } else if p >= start + spans[start] {
          lo := n.idx + 1;
          n := n.right;
        } else {
          return Some(start);
        }
      }
      return None;
    }

    /** A block's node goes into the tree. */
    method Insert(a: nat)
      requires Valid() && a !in node && Even(a)
      modifies Footprint()
      ensures Valid() && node.Keys == old(node.Keys) + {a} && fresh(Footprint() - old(Footprint()))
    {
      var n := new RbTree.Node(a / 2);
      ghost var k := tree.Insert(n);
      node := node[a := n];
    }

    /** A block's node leaves the tree. */
    method Delete(a: nat)
      requires Valid() && a in node
      modifies Footprint()
      ensures Valid() && node.Keys == old(node.Keys) - {a} && Footprint() <= old(Footprint())
    {
      var n := node[a];
      ghost var s := tree.S;
      tree.Delete(n);
      node := node - {a};
    }

    /** The tree while it is taken apart: in order and linked, but no longer balanced. */
    ghost predicate Emptying(next: RbTree.Node)
      reads this, tree, tree.nodes, tree.sentinel
    {
      && Matched() && tree.Linked() && RbTree.Sorted(tree.S)
      && tree.sentinel.bh == 0 && tree.sentinel.color == RbTree.Black
      && (if tree.S == [] then next == tree.sentinel else next in tree.nodes && next.lo == 0)
    }

    method First() returns (next: RbTree.Node)
      requires Valid()
      ensures Emptying(next)
    {
      next := tree.sentinel.left;
      assert next in tree.nodes ==> tree.S[next.idx] == next;
    }

    /** One round of the loop of nxt_mp_destroy: the lowest block, whose descriptor is released at once. */
    method DestroyNext(next: RbTree.Node) returns (a: nat, next': RbTree.Node)
      requires Emptying(next) && next != tree.sentinel
      modifies Footprint()
      ensures Emptying(next') && Footprint() <= old(Footprint())
      ensures a in old(node) && node == old(node) - {a} && forall b :: b in node ==> a < b
    {
      var n;
      LowestFirst();
      n, next' := tree.DestroyNext(next);
      a := 2 * n.key;
      node := node - {a};
      tree.Scribble(n, tree.compare);
    }

    lemma LowestFirst()
      requires Matched() && tree.Linked() && RbTree.Sorted(tree.S) && tree.S != []
      ensures tree.S[0] in tree.nodes && 2 * tree.S[0].key in node
      ensures forall b :: b in node ==> 2 * tree.S[0].key <= b
    {
      forall b | b in node
        ensures 2 * tree.S[0].key <= b
      {
        assert tree.S[node[b].idx] == node[b];
      }
    }

    lemma Emptied(next: RbTree.Node)
      requires Emptying(next) && next == tree.sentinel
      ensures Valid() && node == map[]
    {
      tree.MembersAreListed();
    }
  }
}
