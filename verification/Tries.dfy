/** The trie as linked nodes that insertion changes in place, and the walk over them. */
module Tries {
  import opened Words
  import opened Routing

  class TrieNode {
    var target: Target
    var hasData: bool
    var left: TrieNode?
    var right: TrieNode?
    ghost var repr: set<TrieNode>

    ghost predicate Valid()
      reads this, repr
      decreases repr
    {
      && this in repr
      && (left != null ==> left in repr && left.repr < repr && this !in left.repr && left.Valid())
      && (right != null ==> right in repr && right.repr < repr && this !in right.repr && right.Valid())
      && (left != null && right != null ==> left.repr !! right.repr)
    }

    ghost function Tree(): (t: Trie)
      reads this, repr
      requires Valid()
      ensures t.Node? && t.target == target && t.hasData == hasData
      decreases repr
    {
      Node(target, hasData, if left == null then Nil else left.Tree(), if right == null then Nil else right.Tree())
    }

    constructor ()
      ensures Valid() && fresh(repr) && Tree() == EMPTY_NODE
    {
      target, hasData, left, right := DEFAULT_TARGET, false, null, null;
      repr := {this};
    }

    /** Creates the left child if it is missing. */
    method GrowLeft()
      requires Valid()
      modifies this
      ensures Valid() && fresh(repr - old(repr)) && left != null
      ensures Tree() == Routing.Node(old(target), old(hasData), Grown(old(Tree()).left), old(Tree()).right)
    {
      if left == null {
        left := new TrieNode();
        repr := repr + left.repr;
      }
    }

    method InsertLeft(prefix: Ip, len: nat, t: Target)
      requires Valid() && len > 0
      modifies repr
      ensures Valid() && fresh(repr - old(repr))
      ensures var t0 := old(Tree());
              t0.Node? && Tree() == t0.(left := Routing.Insert(Grown(t0.left), TopBits(U32(2 * prefix), len - 1), t))
      decreases len, 0
    {
      hide Routing.Insert, TopBits, U32, Grown;
      GrowLeft();
      ghost var other := Tree().right;
      left.Insert(U32(2 * prefix), len - 1, t);
      assert right != null ==> right.Valid() && right.Tree() == other;
      repr := repr + left.repr;
      assert left.Valid() && (right != null ==> right.Valid());
    }

    /** Creates the right child if it is missing. */
    method GrowRight()
      requires Valid()
      modifies this
      ensures Valid() && fresh(repr - old(repr)) && right != null
      ensures Tree() == Routing.Node(old(target), old(hasData), old(Tree()).left, Grown(old(Tree()).right))
    {
      if right == null {
        right := new TrieNode();
        repr := repr + right.repr;
      }
    }

    method InsertRight(prefix: Ip, len: nat, t: Target)
      requires Valid() && len > 0
      modifies repr
      ensures Valid() && fresh(repr - old(repr))
      ensures var t0 := old(Tree());
              t0.Node? && Tree() == t0.(right := Routing.Insert(Grown(t0.right), TopBits(U32(2 * prefix), len - 1), t))
      decreases len, 0
    {
      hide Routing.Insert, TopBits, U32, Grown;
      GrowRight();
      ghost var other := Tree().left;
      right.Insert(U32(2 * prefix), len - 1, t);
      assert left != null ==> left.Valid() && left.Tree() == other;
      repr := repr + right.repr;
      assert right.Valid() && (left != null ==> left.Valid());
    }

    /** Adds a route below this node, creating the nodes on its path. */
    method Insert(prefix: Ip, len: nat, t: Target)
      requires Valid()
      modifies repr
      ensures Valid() && fresh(repr - old(repr))
      ensures Tree() == Routing.Insert(old(Tree()), TopBits(prefix, len), t)
      decreases len, 1
    {
      if len == 0 {
        target := t;
        hasData := true;
      } else if prefix / TWO_31 == 0 {
        InsertLeft(prefix, len, t);
      } else {
        InsertRight(prefix, len, t);
      }
    }

    /** Follows the bits of the address down from this node and returns where the walk ends. */
    method Walk(ip: Ip) returns (end: TrieNode)
      requires Valid()
      ensures end.target == Lookup(Tree(), TopBits(ip, 32))
    {
      hide TopBits, Two, BitOf;
      ghost var dst := TopBits(ip, 32);
      var curr: TrieNode, valid: TrieNode := this, this;
      var i := 32;
      while i > 0
        invariant 0 <= i <= 32
        invariant curr.Valid() && valid.Valid()
        invariant Routing.Walk(curr.Tree(), valid.Tree(), dst[32 - i..]).target == Lookup(Tree(), dst)
        decreases i
      {
        i := i - 1;
        TopBitsAt(ip, 32, 31 - i);
        assert dst[31 - i..][0] == BitOf(ip, i) && dst[31 - i..][1..] == dst[32 - i..];
        var child, other := curr.left, curr.right;
        if BitOf(ip, i) {
          child, other := curr.right, curr.left;
        }
        if child == null {
          return if other != null then valid else curr;
        }
        curr := child;
        if curr.hasData {
          valid := curr;
        }
      }
      end := curr;
    }
  }
}
