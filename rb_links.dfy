/**
 * `rbt_rotate_left` and `rbt_rotate_right` on the node heap itself, with the
 * `parent` links the value model leaves implicit. The code as written moves
 * the rotated child's inner subtree across but never points that subtree's
 * `parent` back at its new parent (dp-tree.hh:325 and :349); `RotateLeft`
 * and `RotateRight` below add that one assignment.
 */
module RbLinks {

  /** `rb_node_t<int>`: a fresh node is black and unlinked. */
  class RbNode {
    var key: int
    var red: bool
    var left: RbNode?
    var right: RbNode?
    var parent: RbNode?

    constructor(k: int)
      ensures key == k && !red && left == null && right == null && parent == null
    {
      key := k;
      red := false;
      left := null;
      right := null;
      parent := null;
    }
  }

  /** Each child of `x` names `x` as its parent. */
  predicate ChildrenLinked(x: RbNode)
    reads x, x.left, x.right
  {
    (x.left != null ==> x.left.parent == x) && (x.right != null ==> x.right.parent == x)
  }

  /**
   * The nodes a rotation touches, other than null, are pairwise different:
   * the rotated node, the child that rises, the node's other child
   * (`sibling`), the rising child's `inner` and `outer` children, and the
   * node's parent (`up`). In a tree they always are.
   */
  predicate Distinct(node: RbNode, child: RbNode, sibling: RbNode?, inner: RbNode?, outer: RbNode?, up: RbNode?)
  {
    node != child
    && sibling != node && sibling != child && inner != node && inner != child
    && outer != node && outer != child && up != node && up != child
    && Apart(sibling, inner) && Apart(sibling, outer) && Apart(sibling, up)
    && Apart(inner, outer) && Apart(inner, up) && Apart(outer, up)
  }

  /** Two possibly null pointers that do not name the same node. */
  predicate Apart(x: RbNode?, y: RbNode?)
  {
    x == null || x != y
  }

  /** The `root` reference the rotations reassign. */
  class LinkedTree {
    var root: RbNode?

    /** `node`'s parent slot, or `root`, names `node`. */
    predicate ParentLinked(x: RbNode)
      reads this, x, x.parent
    {
      if x.parent == null then root == x else x.parent.left == x || x.parent.right == x
    }

    /** `rbt_rotate_left` as written: the inner subtree keeps its old `parent`. */
    method RotateLeftAsWritten(node: RbNode) returns (r: RbNode)
      requires node.right != null
      requires Distinct(node, node.right, node.left, node.right.left, node.right.right, node.parent)
      modifies this, node, node.right, node.parent
      ensures r == old(node.right) && r.left == node && r.right == old(r.right)
      ensures r.parent == old(node.parent) && node.parent == r
      ensures node.right == old(r.left) && node.left == old(node.left)
      ensures old(ParentLinked(node)) ==> ParentLinked(r)
      ensures old(node.right.left) != null ==> old(node.right.left).parent == old(node.right.left.parent)
      ensures old(ChildrenLinked(node.right)) && old(node.right.left) != null ==> !ChildrenLinked(node)
      ensures node.key == old(node.key) && node.red == old(node.red) && r.key == old(node.right.key) && r.red == old(node.right.red)
      ensures old(node.parent) == null ==> root == r
      ensures old(node.parent) != null ==> root == old(root)
      ensures var up := old(node.parent); up != null ==> up.key == old(up.key) && up.red == old(up.red) && up.parent == old(up.parent)
      ensures var up := old(node.parent); up != null && old(up.left) == node ==> up.left == r && up.right == old(up.right)
      ensures var up := old(node.parent); up != null && old(up.left) != node ==> up.right == r && up.left == old(up.left)
    {
      r := node.right;
      var up := node.parent;
      r.parent := up;
      if up != null {
        if up.left == node {
          up.left := r;
        } else {
          up.right := r;
        }
      } else {
        root := r;
      }
      node.parent := r;
      node.right := r.left;
      r.left := node;
    }

    /** `rbt_rotate_left` with the moved subtree re-parented to `node`. */
    method RotateLeft(node: RbNode) returns (r: RbNode)
      requires node.right != null
      requires Distinct(node, node.right, node.left, node.right.left, node.right.right, node.parent)
      modifies this, node, node.right, node.parent, node.right.left
      ensures r == old(node.right) && r.left == node && r.right == old(r.right)
      ensures r.parent == old(node.parent) && node.parent == r
      ensures node.right == old(r.left) && node.left == old(node.left)
      ensures old(ParentLinked(node)) ==> ParentLinked(r)
      ensures old(ChildrenLinked(node)) && old(ChildrenLinked(node.right)) ==> ChildrenLinked(node) && ChildrenLinked(r)
      ensures node.key == old(node.key) && node.red == old(node.red) && r.key == old(node.right.key) && r.red == old(node.right.red)
      ensures old(node.parent) == null ==> root == r
      ensures old(node.parent) != null ==> root == old(root)
      ensures var up := old(node.parent); up != null ==> up.key == old(up.key) && up.red == old(up.red) && up.parent == old(up.parent)
      ensures var up := old(node.parent); up != null && old(up.left) == node ==> up.left == r && up.right == old(up.right)
      ensures var up := old(node.parent); up != null && old(up.left) != node ==> up.right == r && up.left == old(up.left)
      ensures var m := old(node.right.left); m != null ==> m.key == old(m.key) && m.red == old(m.red) && m.left == old(m.left) && m.right == old(m.right)
    {
      r := node.right;
      var up := node.parent;
      r.parent := up;
      if up != null {
        if up.left == node {
          up.left := r;
        } else {
          up.right := r;
        }
      } else {
        root := r;
      }
      node.parent := r;
      node.right := r.left;
      if node.right != null {
        node.right.parent := node;
      }
      r.left := node;
    }

    /** `rbt_rotate_right` as written: the inner subtree keeps its old `parent`. */
    method RotateRightAsWritten(node: RbNode) returns (l: RbNode)
      requires node.left != null
      requires Distinct(node, node.left, node.right, node.left.right, node.left.left, node.parent)
      modifies this, node, node.left, node.parent
      ensures l == old(node.left) && l.right == node && l.left == old(l.left)
      ensures l.parent == old(node.parent) && node.parent == l
      ensures node.left == old(l.right) && node.right == old(node.right)
      ensures old(ParentLinked(node)) ==> ParentLinked(l)
      ensures old(node.left.right) != null ==> old(node.left.right).parent == old(node.left.right.parent)
      ensures old(ChildrenLinked(node.left)) && old(node.left.right) != null ==> !ChildrenLinked(node)
      ensures node.key == old(node.key) && node.red == old(node.red) && l.key == old(node.left.key) && l.red == old(node.left.red)
      ensures old(node.parent) == null ==> root == l
      ensures old(node.parent) != null ==> root == old(root)
      ensures var up := old(node.parent); up != null ==> up.key == old(up.key) && up.red == old(up.red) && up.parent == old(up.parent)
      ensures var up := old(node.parent); up != null && old(up.left) == node ==> up.left == l && up.right == old(up.right)
      ensures var up := old(node.parent); up != null && old(up.left) != node ==> up.right == l && up.left == old(up.left)
    {
      l := node.left;
      var up := node.parent;
      l.parent := up;
      if up != null {
        if up.left == node {
          up.left := l;
        } else {
          up.right := l;
        }
      } else {
        root := l;
      }
      node.parent := l;
      node.left := l.right;
      l.right := node;
    }

    /** `rbt_rotate_right` with the moved subtree re-parented to `node`. */
    method RotateRight(node: RbNode) returns (l: RbNode)
      requires node.left != null
      requires Distinct(node, node.left, node.right, node.left.right, node.left.left, node.parent)
      modifies this, node, node.left, node.parent, node.left.right
      ensures l == old(node.left) && l.right == node && l.left == old(l.left)
      ensures l.parent == old(node.parent) && node.parent == l
      ensures node.left == old(l.right) && node.right == old(node.right)
      ensures old(ParentLinked(node)) ==> ParentLinked(l)
      ensures old(ChildrenLinked(node)) && old(ChildrenLinked(node.left)) ==> ChildrenLinked(node) && ChildrenLinked(l)
      ensures node.key == old(node.key) && node.red == old(node.red) && l.key == old(node.left.key) && l.red == old(node.left.red)
      ensures old(node.parent) == null ==> root == l
      ensures old(node.parent) != null ==> root == old(root)
      ensures var up := old(node.parent); up != null ==> up.key == old(up.key) && up.red == old(up.red) && up.parent == old(up.parent)
      ensures var up := old(node.parent); up != null && old(up.left) == node ==> up.left == l && up.right == old(up.right)
      ensures var up := old(node.parent); up != null && old(up.left) != node ==> up.right == l && up.left == old(up.left)
      ensures var m := old(node.left.right); m != null ==> m.key == old(m.key) && m.red == old(m.red) && m.left == old(m.left) && m.right == old(m.right)
    {
      l := node.left;
      var up := node.parent;
      l.parent := up;
      if up != null {
        if up.left == node {
          up.left := l;
        } else {
          up.right := l;
        }
      } else {
        root := l;
      }
      node.parent := l;
      node.left := l.right;
      if node.left != null {
        node.left.parent := node;
      }
      l.right := node;
    }
  }

  /**
   * The three-node tree 1(-, 3(2, -)) with consistent links, rotated left at
   * its root: as written, node 1's new right child 2 still names 3 as its
   * parent; the corrected rotation names 1.
   */
  method StaleParentAfterRotateLeft() returns (staleAsWritten: bool, linkedCorrected: bool)
    ensures staleAsWritten && linkedCorrected
  {
    var t, a, c, b := Sample();
    var r := t.RotateLeftAsWritten(a);
    staleAsWritten := a.right == b && b.parent == c;
    t, a, c, b := Sample();
    r := t.RotateLeft(a);
    linkedCorrected := a.right == b && b.parent == a && t.root == c;
  }

  /** Builds 1(-, 3(2, -)) with every link consistent. */
  method Sample() returns (t: LinkedTree, a: RbNode, c: RbNode, b: RbNode)
    ensures fresh(t) && fresh(a) && fresh(b) && fresh(c)
    ensures t.root == a && a.parent == null && a.left == null && a.right == c
    ensures c.parent == a && c.left == b && c.right == null
    ensures b.parent == c && b.left == null && b.right == null
  {
    t := new LinkedTree;
    a := new RbNode(1);
    c := new RbNode(3);
    b := new RbNode(2);
    a.right := c;
    c.parent := a;
    c.left := b;
    b.parent := c;
    t.root := a;
  }
}
