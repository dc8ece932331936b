/**
 * `rb_tree::insert_rbt` and `rb_tree::insert_rbt_fixup`. The descent and the
 * repair loop are methods over a focus and its ancestor path (see
 * `RbZipper`); each repair case is one lemma that carries the loop invariant
 * from one iteration to the next.
 */
module RbInsert {
  import opened TreeOps
  import opened RbSpec
  import opened RbRotate
  import opened RbZipper

  /**
   * What `insert_rbt_fixup` keeps true between iterations: the focus is red,
   * balanced and has no red-red edge inside, the path would be valid for a
   * black focus, and the root is black. The only possible fault is a red
   * parent.
   */
  predicate FixupInv(node: Tree, path: seq<Frame>)
  {
    node.Node? && node.color == Red && NoRedRed(node) && Balanced(node)
    && PathBalanced(path, BH(node)) && PathRB(path, Black) && RootBlack(path)
  }

  /**
   * `insert_rbt`: descends from the root, returns 1 without linking anything
   * when it meets the key, otherwise links a red node where the descent fell
   * off the tree and repairs the colours.
   */
  method InsertRbt(t: Tree, k: int) returns (status: int, r: Tree)
    requires IsRB(t)
    ensures status == 0 || status == 1
    ensures status == 1 <==> k in InOrder(t)
    ensures status == 1 ==> r == t
    ensures InOrder(r) == SortedInsert(InOrder(t), k)
    ensures IsRB(r)
  {
    SearchTreeIffIncreasing(t);
    var p := t;
    var path: seq<Frame> := [];
    while p.Node?
      invariant Plug(p, path) == t
      invariant SearchTree(p)
      invariant forall x :: x in Lo(path) ==> x < k
      invariant forall x :: x in Hi(path) ==> k < x
      invariant path != [] ==> (path[0].dir == L <==> k < path[0].key)
      decreases p
    {
      if p.key == k {
        PlugInOrder(p, path);
        SortedInsertPresent(InOrder(t), k);
        return 1, t;
      }
      var f;
      if p.key < k {
        f := Frame(R, p.color, p.key, p.left);
        p := p.right;
      } else {
        f := Frame(L, p.color, p.key, p.right);
        p := p.left;
      }
      assert ([f] + path)[1..] == path;
      path := [f] + path;
    }
    // The new node is red; it hangs to the left of the last visited node
    // exactly when its key is smaller, which is the direction of path[0].
    var node := Node(Red, Nil, k, Nil);
    LinkNew(t, path, k);
    r := InsertFixup(node, path);
    InsertDone(t, path, k, r);
    status := 0;
  }

  /** Where the descent falls off the tree, a red leaf can be linked without breaking the black heights. */
  lemma LinkNew(t: Tree, path: seq<Frame>, k: int)
    requires IsRB(t) && Plug(Nil, path) == t
    requires forall x :: x in Lo(path) ==> x < k
    requires forall x :: x in Hi(path) ==> k < x
    ensures k !in InOrder(t)
    ensures FixupInv(Node(Red, Nil, k, Nil), path)
  {
    PlugInOrder(Nil, path);
    PlugBalanced(Nil, path);
    PlugNoRedRed(Nil, path);
    PlugColor(Nil, path);
  }

  /** After the repair the keys are the old ones with `k` inserted in order, and the tree is valid. */
  lemma InsertDone(t: Tree, path: seq<Frame>, k: int, r: Tree)
    requires SearchTree(t) && Plug(Nil, path) == t
    requires forall x :: x in Lo(path) ==> x < k
    requires forall x :: x in Hi(path) ==> k < x
    requires IsBlack(r) && NoRedRed(r) && Balanced(r)
    requires InOrder(r) == InOrder(Plug(Node(Red, Nil, k, Nil), path))
    ensures InOrder(r) == SortedInsert(InOrder(t), k)
    ensures IsRB(r)
  {
    PlugInOrder(Nil, path);
    PlugInOrder(Node(Red, Nil, k, Nil), path);
    SearchTreeIffIncreasing(t);
    InsertBetween(InOrder(t), Lo(path), Hi(path), k, InOrder(r));
    SearchTreeIffIncreasing(r);
  }

  lemma InsertBetween(s: seq<int>, lo: seq<int>, hi: seq<int>, k: int, s': seq<int>)
    requires Increasing(s) && s == lo + [] + hi && s' == lo + [k] + hi
    requires forall x :: x in lo ==> x < k
    requires forall x :: x in hi ==> k < x
    ensures s' == SortedInsert(s, k) && Increasing(s')
  {
    assert s == lo + hi;
    SortedInsertBetween(lo, k, hi);
    SortedInsertIncreasing(s, k);
  }

  /**
   * `insert_rbt_fixup`: while the focus has a red parent, recolour (case 1)
   * or rotate (cases 2 and 3, on either side); finally blacken the root.
   */
  method InsertFixup(node0: Tree, path0: seq<Frame>) returns (root: Tree)
    requires FixupInv(node0, path0)
    ensures IsBlack(root) && NoRedRed(root) && Balanced(root)
    ensures InOrder(root) == InOrder(Plug(node0, path0))
  {
    var node, path := node0, path0;
    while path != [] && path[0].color == Red
      invariant FixupInv(node, path)
      invariant InOrder(Plug(node, path)) == InOrder(Plug(node0, path0))
      decreases |path|
    {
      var parent := path[0];
      // A red parent is not the root, so the grandparent exists.
      assert |path| >= 2;
      var grandpa := path[1];
      var rest := path[2..];
      assert path == [parent, grandpa] + rest;
      var uncle := grandpa.sibling;
      if grandpa.dir == L {
        if uncle.Node? && uncle.color == Red {
          // Case 1: red uncle.
          Case1Recolor(node, parent, grandpa, rest);
          node := Attach(Attach(node, parent.(color := Black)), grandpa.(color := Red, sibling := Blacken(uncle)));
          path := rest;
        } else {
          if parent.dir == R {
            // Case 2: the focus is the parent's right child.
            Case2Left(node, parent, grandpa, rest);
            var rot := RotateLeft(Attach(node, parent));
            node, parent := rot.left, Frame(L, rot.color, rot.key, rot.right);
          }
          // Case 3: the focus is the parent's left child.
          Case3Left(node, parent, grandpa, rest);
          var rot := RotateRight(Attach(Attach(node, parent.(color := Black)), grandpa.(color := Red)));
          path := [Frame(L, rot.color, rot.key, rot.right)] + rest;
        }
      } else {
        if uncle.Node? && uncle.color == Red {
          // Case 1: red uncle.
          Case1Recolor(node, parent, grandpa, rest);
          node := Attach(Attach(node, parent.(color := Black)), grandpa.(color := Red, sibling := Blacken(uncle)));
          path := rest;
        } else {
          if parent.dir == L {
            // Case 2: the focus is the parent's left child.
            Case2Right(node, parent, grandpa, rest);
            var rot := RotateRight(Attach(node, parent));
            node, parent := rot.right, Frame(R, rot.color, rot.key, rot.left);
          }
          // Case 3: the focus is the parent's right child.
          Case3Right(node, parent, grandpa, rest);
          var rot := RotateLeft(Attach(Attach(node, parent.(color := Black)), grandpa.(color := Red)));
          path := [Frame(R, rot.color, rot.key, rot.left)] + rest;
        }
      }
    }
    FixupDone(node, path);
    root := Blacken(Plug(node, path));
  }

  // ------------------------------------------------------------ one lemma per case

  /** Facts every case reads off the invariant: the grandparent is black, the path above it is intact. */
  lemma RedParent(node: Tree, parent: Frame, grandpa: Frame, rest: seq<Frame>)
    requires FixupInv(node, [parent, grandpa] + rest) && parent.color == Red
    ensures grandpa.color == Black
    ensures NoRedRed(parent.sibling) && IsBlack(parent.sibling) && Balanced(parent.sibling)
    ensures NoRedRed(grandpa.sibling) && Balanced(grandpa.sibling)
    ensures BH(parent.sibling) == BH(node) && BH(grandpa.sibling) == BH(node)
    ensures PathBalanced(rest, BH(node) + 1) && PathRB(rest, Black) && RootBlack(rest)
  {
    var p := [parent, grandpa] + rest;
    var q := [grandpa] + rest;
    assert p[0] == parent && p[1..] == q;
    assert q[0] == grandpa && q[1..] == rest;
    assert PathRB(q, Red) && PathBalanced(q, BH(node));
    if rest != [] {
      assert p[|p| - 1] == rest[|rest| - 1];
    }
  }

  /** Two frames pushed back onto the rest of the path. */
  lemma PlugTwo(t: Tree, a: Frame, b: Frame, rest: seq<Frame>)
    ensures Plug(t, [a, b] + rest) == Plug(Attach(Attach(t, a), b), rest)
  {
    var p := [a, b] + rest;
    assert p[0] == a && p[1..] == [b] + rest;
    assert ([b] + rest)[0] == b && ([b] + rest)[1..] == rest;
  }

  /**
   * Case 1 (either side): parent and uncle turn black, the grandparent turns
   * red and becomes the focus, two levels up.
   */
  lemma Case1Recolor(node: Tree, parent: Frame, grandpa: Frame, rest: seq<Frame>)
    requires FixupInv(node, [parent, grandpa] + rest)
    requires parent.color == Red && grandpa.sibling.Node? && grandpa.sibling.color == Red
    ensures FixupInv(Attach(Attach(node, parent.(color := Black)), grandpa.(color := Red, sibling := Blacken(grandpa.sibling))), rest)
    ensures InOrder(Plug(Attach(Attach(node, parent.(color := Black)), grandpa.(color := Red, sibling := Blacken(grandpa.sibling))), rest))
         == InOrder(Plug(node, [parent, grandpa] + rest))
  {
    RedParent(node, parent, grandpa, rest);
    var up := Attach(Attach(node, parent.(color := Black)), grandpa.(color := Red, sibling := Blacken(grandpa.sibling)));
    assert BH(up) == BH(node) + 1;
    PlugTwo(node, parent, grandpa, rest);
    PlugSameInOrder(up, Attach(Attach(node, parent), grandpa), rest);
  }

  /**
   * Case 2, parent on the grandparent's left: `rbt_rotate_left(parent)` and
   * the old parent becomes the focus, now a left child, so case 3 applies.
   */
  lemma Case2Left(node: Tree, parent: Frame, grandpa: Frame, rest: seq<Frame>)
    requires FixupInv(node, [parent, grandpa] + rest)
    requires parent.color == Red && parent.dir == R && grandpa.dir == L && IsBlack(grandpa.sibling)
    ensures var rot := RotateLeft(Attach(node, parent));
            FixupInv(rot.left, [Frame(L, rot.color, rot.key, rot.right), grandpa] + rest)
            && rot.color == Red
            && InOrder(Plug(rot.left, [Frame(L, rot.color, rot.key, rot.right), grandpa] + rest))
               == InOrder(Plug(node, [parent, grandpa] + rest))
  {
    RedParent(node, parent, grandpa, rest);
    var rot := RotateLeft(Attach(node, parent));
    var f := Frame(L, rot.color, rot.key, rot.right);
    PlugTwo(rot.left, f, grandpa, rest);
    PlugTwo(node, parent, grandpa, rest);
    assert Attach(rot.left, f) == rot;
    PlugSameInOrder(Attach(Attach(rot.left, f), grandpa), Attach(Attach(node, parent), grandpa), rest);
    var p := [f, grandpa] + rest;
    assert p[0] == f && p[1..] == [grandpa] + rest;
  }

  /** Mirror of `Case2Left`: `rbt_rotate_right(parent)`. */
  lemma Case2Right(node: Tree, parent: Frame, grandpa: Frame, rest: seq<Frame>)
    requires FixupInv(node, [parent, grandpa] + rest)
    requires parent.color == Red && parent.dir == L && grandpa.dir == R && IsBlack(grandpa.sibling)
    ensures var rot := RotateRight(Attach(node, parent));
            FixupInv(rot.right, [Frame(R, rot.color, rot.key, rot.left), grandpa] + rest)
            && rot.color == Red
            && InOrder(Plug(rot.right, [Frame(R, rot.color, rot.key, rot.left), grandpa] + rest))
               == InOrder(Plug(node, [parent, grandpa] + rest))
  {
    RedParent(node, parent, grandpa, rest);
    var rot := RotateRight(Attach(node, parent));
    var f := Frame(R, rot.color, rot.key, rot.left);
    PlugTwo(rot.right, f, grandpa, rest);
    PlugTwo(node, parent, grandpa, rest);
    assert Attach(rot.right, f) == rot;
    PlugSameInOrder(Attach(Attach(rot.right, f), grandpa), Attach(Attach(node, parent), grandpa), rest);
    var p := [f, grandpa] + rest;
    assert p[0] == f && p[1..] == [grandpa] + rest;
  }

  /**
   * Case 3, parent on the grandparent's left and the focus its left child:
   * parent black, grandparent red, `rbt_rotate_right(grandpa)`. The focus
   * keeps its place under a black parent, so the loop ends.
   */
  lemma Case3Left(node: Tree, parent: Frame, grandpa: Frame, rest: seq<Frame>)
    requires FixupInv(node, [parent, grandpa] + rest)
    requires parent.color == Red && parent.dir == L && grandpa.dir == L && IsBlack(grandpa.sibling)
    ensures var rot := RotateRight(Attach(Attach(node, parent.(color := Black)), grandpa.(color := Red)));
            rot.left == node && rot.color == Black
            && FixupInv(node, [Frame(L, rot.color, rot.key, rot.right)] + rest)
            && InOrder(Plug(node, [Frame(L, rot.color, rot.key, rot.right)] + rest))
               == InOrder(Plug(node, [parent, grandpa] + rest))
  {
    RedParent(node, parent, grandpa, rest);
    var rot := RotateRight(Attach(Attach(node, parent.(color := Black)), grandpa.(color := Red)));
    var f := Frame(L, rot.color, rot.key, rot.right);
    PlugOne(node, f, rest);
    PlugTwo(node, parent, grandpa, rest);
    assert Attach(node, f) == rot;
    PlugSameInOrder(Attach(node, f), Attach(Attach(node, parent), grandpa), rest);
    var p := [f] + rest;
    assert p[0] == f && p[1..] == rest;
    if rest != [] {
      assert p[|p| - 1] == rest[|rest| - 1];
    }
  }

  /** Mirror of `Case3Left`: `rbt_rotate_left(grandpa)`. */
  lemma Case3Right(node: Tree, parent: Frame, grandpa: Frame, rest: seq<Frame>)
    requires FixupInv(node, [parent, grandpa] + rest)
    requires parent.color == Red && parent.dir == R && grandpa.dir == R && IsBlack(grandpa.sibling)
    ensures var rot := RotateLeft(Attach(Attach(node, parent.(color := Black)), grandpa.(color := Red)));
            rot.right == node && rot.color == Black
            && FixupInv(node, [Frame(R, rot.color, rot.key, rot.left)] + rest)
            && InOrder(Plug(node, [Frame(R, rot.color, rot.key, rot.left)] + rest))
               == InOrder(Plug(node, [parent, grandpa] + rest))
  {
    RedParent(node, parent, grandpa, rest);
    var rot := RotateLeft(Attach(Attach(node, parent.(color := Black)), grandpa.(color := Red)));
    var f := Frame(R, rot.color, rot.key, rot.left);
    PlugOne(node, f, rest);
    PlugTwo(node, parent, grandpa, rest);
    assert Attach(node, f) == rot;
    PlugSameInOrder(Attach(node, f), Attach(Attach(node, parent), grandpa), rest);
    var p := [f] + rest;
    assert p[0] == f && p[1..] == rest;
    if rest != [] {
      assert p[|p| - 1] == rest[|rest| - 1];
    }
  }

  /** When the loop stops, blackening the root leaves a valid colouring. */
  lemma FixupDone(node: Tree, path: seq<Frame>)
    requires FixupInv(node, path)
    requires !(path != [] && path[0].color == Red)
    ensures var root := Blacken(Plug(node, path));
            IsBlack(root) && NoRedRed(root) && Balanced(root)
            && InOrder(root) == InOrder(Plug(node, path))
  {
    PlugBalanced(node, path);
    PlugNoRedRed(node, path);
    PlugColor(node, path);
    if path != [] {
      assert PathRB(path, Red);
    }
  }
}
