/**
 * `rbt_rotate_left` and `rbt_rotate_right` on the value model: the rotated
 * subtree is rebuilt with its colours travelling with their nodes, and the
 * result is the new subtree root. Replacing the rotated subtree at its place
 * in the tree (the parent's child slot, or `root` itself) is `RbZipper.Plug`.
 */
module RbRotate {
  import opened TreeOps
  import opened Optional

  //          d                   f
  //       b      f     ->     d     g
  //             e  g        b   e
  /** `rbt_rotate_left`: the right child rises, its inner subtree moves across. */
  function RotateLeft(t: Tree): (r: Tree)
    requires t.Node? && t.right.Node?
    ensures r.Node? && r.left.Node?
    ensures InOrder(r) == InOrder(t)
  {
    var x := t.right;
    Node(x.color, Node(t.color, t.left, t.key, x.left), x.key, x.right)
  }

  //          d                   b
  //       b      f     ->     a     d
  //     a   c                     c   f
  /** `rbt_rotate_right`: the left child rises, its inner subtree moves across. */
  function RotateRight(t: Tree): (r: Tree)
    requires t.Node? && t.left.Node?
    ensures r.Node? && r.right.Node?
    ensures InOrder(r) == InOrder(t)
  {
    var x := t.left;
    Node(x.color, x.left, x.key, Node(t.color, x.right, t.key, t.right))
  }

  /** Each rotation undoes the other. */
  lemma RotationsInverse(t: Tree)
    ensures t.Node? && t.right.Node? ==> RotateRight(RotateLeft(t)) == t
    ensures t.Node? && t.left.Node? ==> RotateLeft(RotateRight(t)) == t
  {
  }

  /**
   * `rbt_rotate_left` on a pointer that may be null: it reads `node->right`
   * and then `right->parent`, so it dereferences null (None) unless both
   * exist.
   */
  function RotateLeftAt(t: Tree): (r: Option<Tree>)
    ensures r.Some? <==> t.Node? && t.right.Node?
    ensures r.Some? ==> InOrder(r.value) == InOrder(t)
  {
    if t.Nil? || t.right.Nil? then None else Some(RotateLeft(t))
  }
}
