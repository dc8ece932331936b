/**
 * `rb_tree::delete_rbt` and `rb_tree::delete_rbt_fixup` over a focus and its
 * ancestor path (see `RbZipper`). Case 1 of the left branch rotates at the
 * parent here; the code as written rotates at the focus (see
 * `LeftCase1AsWritten`).
 */
module RbDelete {
  import opened TreeOps
  import opened Optional
  import opened RbSpec
  import opened RbRotate
  import opened RbZipper

  /**
   * What `delete_rbt_fixup` keeps true between iterations: the focus is
   * balanced but one black level short of its place, it has no red-red edge
   * below its root, the path would be valid for a black focus, and the root
   * is black.
   */
  predicate DelInv(node: Tree, path: seq<Frame>)
  {
    Balanced(node) && NoRedRed(Blacken(node))
    && PathBalanced(path, BH(node) + 1) && PathRB(path, Black) && RootBlack(path)
  }

  /**
   * `delete_rbt`: returns -1 and changes nothing when the key is absent.
   * Otherwise a node with two children is replaced by its in-order successor,
   * which takes the removed node's colour, and a node with at most one child
   * is replaced by that child; when the colour spliced out was black the
   * colours are repaired.
   */
  method DeleteRbt(t: Tree, k: int) returns (status: int, r: Tree)
    requires IsRB(t)
    ensures status == 0 || status == -1
    ensures status == -1 <==> k !in InOrder(t)
    ensures status == -1 ==> r == t
    ensures InOrder(r) == Remove(InOrder(t), k)
    ensures IsRB(r)
  {
    SearchTreeIffIncreasing(t);
    var p := t;
    var path: seq<Frame> := [];
    while p.Node? && p.key != k
      invariant Plug(p, path) == t
      invariant SearchTree(p)
      invariant forall x :: x in Lo(path) ==> x < k
      invariant forall x :: x in Hi(path) ==> k < x
      decreases p
    {
      var f;
      if p.key < k {
        f := Frame(R, p.color, p.key, p.left);
        p := p.right;
      } else {
        f := Frame(L, p.color, p.key, p.right);
        p := p.left;
      }
      assert ([f] + path)[1..] == path;
      path := [f] + path;
    }
    if p.Nil? {
      NotFound(t, path, k);
      return -1, t;
    }
    var node: Tree;
    var fpath: seq<Frame>;
    var removed: Color;
    if p.left.Node? && p.right.Node? {
      var s := p.right;
      var spath: seq<Frame> := [];
      while s.left.Node?
        invariant s.Node? && Plug(s, spath) == p.right
        invariant forall i :: 0 <= i < |spath| ==> spath[i].dir == L
        decreases s
      {
        var f := Frame(L, s.color, s.key, s.right);
        assert ([f] + spath)[1..] == spath;
        spath := [f] + spath;
        s := s.left;
      }
      // The successor takes the removed node's place and colour; its right
      // child takes the successor's place.
      SpliceSuccessorOrder(t, p, path, s, spath, k);
      SpliceSuccessorColors(t, p, path, s, spath);
      node := s.right;
      fpath := spath + [Frame(R, p.color, s.key, p.left)] + path;
      removed := s.color;
    } else {
      SpliceChildOrder(t, p, path, k);
      SpliceChildColors(t, p, path);
      node := if p.left.Node? then p.left else p.right;
      fpath := path;
      removed := p.color;
    }
    if removed == Black {
      r := DeleteFixup(node, fpath);
    } else {
      r := Plug(node, fpath);
    }
    SearchTreeIffIncreasing(r);
    status := 0;
  }

  /**
   * `delete_rbt_fixup`: the focus `node0` is one black level short. Cases 1
   * to 4 of the repair, on whichever side of its parent the focus hangs;
   * case 2 moves the deficit up, case 4 removes it and ends the loop.
   */
  method DeleteFixup(node0: Tree, path0: seq<Frame>) returns (root: Tree)
    requires DelInv(node0, path0)
    ensures IsBlack(root) && NoRedRed(root) && Balanced(root)
    ensures InOrder(root) == InOrder(Plug(node0, path0))
  {
    var node, path := node0, path0;
    while IsBlack(node) && path != []
      invariant DelInv(node, path)
      invariant InOrder(Plug(node, path)) == InOrder(Plug(node0, path0))
      decreases |path| + (if IsBlack(node) then 1 else 0)
    {
      var parent := path[0];
      var rest := path[1..];
      assert path == [parent] + rest;
      if parent.dir == L {
        node, path := FixupLeft(node, parent, rest);
      } else {
        node, path := FixupRight(node, parent, rest);
      }
    }
    DelDone(node, path);
    root := Plug(Blacken(node), path);
  }

  /** One pass of the repair loop when the focus is its parent's left child. */
  method FixupLeft(node0: Tree, parent0: Frame, rest0: seq<Frame>) returns (node: Tree, path: seq<Frame>)
    requires DelInv(node0, [parent0] + rest0) && IsBlack(node0) && parent0.dir == L
    ensures DelInv(node, path)
    ensures InOrder(Plug(node, path)) == InOrder(Plug(node0, [parent0] + rest0))
    ensures |path| + (if IsBlack(node) then 1 else 0) < |rest0| + 2
  {
    node := node0;
    var parent, rest := parent0, rest0;
    DelBrother(node, parent, rest);
    var brother := parent.sibling;
    if brother.color == Red {
      // Case 1: red brother; rotate at the parent.
      DelCase1Left(node, parent, rest);
      var rot := RotateLeft(Attach(node, parent.(color := Red, sibling := brother.(color := Black))));
      path := [Frame(L, rot.left.color, rot.left.key, rot.left.right), Frame(L, rot.color, rot.key, rot.right)] + rest;
      parent, rest := path[0], path[1..];
      assert path == [parent] + rest;
      DelBrother(node, parent, rest);
      brother := parent.sibling;
    }
    node, path := FixupLeftBlack(node, parent, rest);
  }

  /** Cases 2 to 4, once the brother is black: either the focus moves up to the parent, taking its colour, or the repair ends. */
  method FixupLeftBlack(node0: Tree, parent0: Frame, rest: seq<Frame>) returns (node: Tree, path: seq<Frame>)
    requires DelInv(node0, [parent0] + rest) && IsBlack(node0) && parent0.dir == L
    requires parent0.sibling.Node? && parent0.sibling.color == Black
    ensures DelInv(node, path)
    ensures InOrder(Plug(node, path)) == InOrder(Plug(node0, [parent0] + rest))
    ensures path == [] || (path == rest && (IsBlack(node) <==> parent0.color == Black))
  {
    node := node0;
    var parent := parent0;
    DelBrother(node, parent, rest);
    var brother := parent.sibling;
    if IsBlack(brother.left) && IsBlack(brother.right) {
      // Case 2: black brother with black children; move up.
      DelCase2(node, parent, rest);
      node := Attach(node, parent.(sibling := brother.(color := Red)));
      path := rest;
    } else {
      if IsBlack(brother.right) {
        // Case 3: the brother's outer child is black; rotate at the brother.
        DelCase3Left(node, parent, rest);
        brother := RotateRight(brother.(color := Red, left := Blacken(brother.left)));
        parent := parent.(sibling := brother);
      }
      // Case 4: the brother's outer child is red; rotate at the parent and stop.
      DelCase4Left(node, parent, rest);
      var rot := RotateLeft(Attach(node, parent.(color := Black, sibling := brother.(color := parent.color, right := Blacken(brother.right)))));
      node := Plug(rot, rest);
      path := [];
    }
  }

  /** Mirror of `FixupLeft`, when the focus is its parent's right child. */
  method FixupRight(node0: Tree, parent0: Frame, rest0: seq<Frame>) returns (node: Tree, path: seq<Frame>)
    requires DelInv(node0, [parent0] + rest0) && IsBlack(node0) && parent0.dir == R
    ensures DelInv(node, path)
    ensures InOrder(Plug(node, path)) == InOrder(Plug(node0, [parent0] + rest0))
    ensures |path| + (if IsBlack(node) then 1 else 0) < |rest0| + 2
  {
    node := node0;
    var parent, rest := parent0, rest0;
    DelBrother(node, parent, rest);
    var brother := parent.sibling;
    if brother.color == Red {
      // Case 1: red brother; rotate at the parent.
      DelCase1Right(node, parent, rest);
      var rot := RotateRight(Attach(node, parent.(color := Red, sibling := brother.(color := Black))));
      path := [Frame(R, rot.right.color, rot.right.key, rot.right.left), Frame(R, rot.color, rot.key, rot.left)] + rest;
      parent, rest := path[0], path[1..];
      assert path == [parent] + rest;
      DelBrother(node, parent, rest);
      brother := parent.sibling;
    }
    node, path := FixupRightBlack(node, parent, rest);
  }

  /** Cases 2 to 4, once the brother is black: either the focus moves up to the parent, taking its colour, or the repair ends. */
  method FixupRightBlack(node0: Tree, parent0: Frame, rest: seq<Frame>) returns (node: Tree, path: seq<Frame>)
    requires DelInv(node0, [parent0] + rest) && IsBlack(node0) && parent0.dir == R
    requires parent0.sibling.Node? && parent0.sibling.color == Black
    ensures DelInv(node, path)
    ensures InOrder(Plug(node, path)) == InOrder(Plug(node0, [parent0] + rest))
    ensures path == [] || (path == rest && (IsBlack(node) <==> parent0.color == Black))
  {
    node := node0;
    var parent := parent0;
    DelBrother(node, parent, rest);
    var brother := parent.sibling;
    if IsBlack(brother.left) && IsBlack(brother.right) {
      // Case 2: black brother with black children; move up.
      DelCase2(node, parent, rest);
      node := Attach(node, parent.(sibling := brother.(color := Red)));
      path := rest;
    } else {
      if IsBlack(brother.left) {
        // Case 3: the brother's outer child is black; rotate at the brother.
        DelCase3Right(node, parent, rest);
        brother := RotateLeft(brother.(color := Red, right := Blacken(brother.right)));
        parent := parent.(sibling := brother);
      }
      // Case 4: the brother's outer child is red; rotate at the parent and stop.
      DelCase4Right(node, parent, rest);
      var rot := RotateRight(Attach(node, parent.(color := Black, sibling := brother.(color := parent.color, left := Blacken(brother.left)))));
      node := Plug(rot, rest);
      path := [];
    }
  }

  // ------------------------------------------------------------ the descent and the splice

  lemma NotFound(t: Tree, path: seq<Frame>, k: int)
    requires IsRB(t) && Plug(Nil, path) == t
    requires forall x :: x in Lo(path) ==> x < k
    requires forall x :: x in Hi(path) ==> k < x
    ensures k !in InOrder(t) && Remove(InOrder(t), k) == InOrder(t)
  {
    PlugInOrder(Nil, path);
    RemoveAbsent(InOrder(t), k);
  }

  /** Frames that all hang the focus to the left contribute no keys before it. */
  lemma {:induction false} LeftSpineLo(p: seq<Frame>)
    requires forall i :: 0 <= i < |p| ==> p[i].dir == L
    ensures Lo(p) == []
    decreases |p|
  {
    if p != [] {
      assert p[0].dir == L;
      LeftSpineLo(p[1..]);
    }
  }

  /** Removing a key that sits between parts that do not hold it. */
  lemma RemoveMiddle(lo: seq<int>, a: seq<int>, k: int, b: seq<int>, hi: seq<int>)
    requires k !in lo && k !in a && k !in b && k !in hi
    ensures k in lo + (a + [k] + b) + hi
    ensures Remove(lo + (a + [k] + b) + hi, k) == lo + (a + b) + hi
  {
    assert lo + (a + [k] + b) + hi == (lo + a) + [k] + (b + hi);
    assert lo + (a + b) + hi == (lo + a) + (b + hi);
    RemoveBetween(lo + a, k, b + hi);
  }

  /** Replacing the node that holds `k` by a subtree holding the rest of its keys removes `k`. */
  lemma ReplaceFocus(p: Tree, m: Tree, path: seq<Frame>, k: int)
    requires p.Node? && p.key == k
    requires InOrder(m) == InOrder(p.left) + InOrder(p.right)
    requires k !in Lo(path) && k !in InOrder(p.left) && k !in InOrder(p.right) && k !in Hi(path)
    ensures k in InOrder(Plug(p, path))
    ensures InOrder(Plug(m, path)) == Remove(InOrder(Plug(p, path)), k)
  {
    PlugInOrder(p, path);
    PlugInOrder(m, path);
    RemoveMiddle(Lo(path), InOrder(p.left), k, InOrder(p.right), Hi(path));
  }

  /** Splicing out a node with at most one child removes exactly its key. */
  lemma SpliceChildOrder(t: Tree, p: Tree, path: seq<Frame>, k: int)
    requires Plug(p, path) == t && Increasing(InOrder(t))
    requires p.Node? && p.key == k && SearchTree(p) && (p.left.Nil? || p.right.Nil?)
    requires forall x :: x in Lo(path) ==> x < k
    requires forall x :: x in Hi(path) ==> k < x
    ensures var child := if p.left.Node? then p.left else p.right;
            k in InOrder(t)
            && InOrder(Plug(child, path)) == Remove(InOrder(t), k)
            && Increasing(InOrder(Plug(child, path)))
  {
    var child := if p.left.Node? then p.left else p.right;
    assert InOrder(child) == InOrder(p.left) + InOrder(p.right);
    assert k !in Lo(path) && k !in InOrder(p.left) && k !in InOrder(p.right) && k !in Hi(path);
    ReplaceFocus(p, child, path, k);
    RemoveIncreasing(InOrder(t), k);
  }

  /**
   * Splicing out a node with at most one child: a red node leaves a valid
   * colouring; a black one leaves its child one black level short.
   */
  lemma SpliceChildColors(t: Tree, p: Tree, path: seq<Frame>)
    requires IsRB(t) && Plug(p, path) == t
    requires p.Node? && (p.left.Nil? || p.right.Nil?)
    ensures var child := if p.left.Node? then p.left else p.right;
            (p.color == Black ==> DelInv(child, path))
            && (p.color == Red ==>
                  var u := Plug(child, path); IsBlack(u) && NoRedRed(u) && Balanced(u))
  {
    var child := if p.left.Node? then p.left else p.right;
    PlugIsRB(p, path);
    assert BH(child) == 0;
    BlackenFacts(child);
    PlugBalanced(child, path);
    PlugNoRedRed(child, path);
    PlugColor(child, path);
    if p.color == Red {
      PathRBBlack(path);
    }
  }

  /** Rebuilding through the successor's left spine and the removed node's frame. */
  lemma SuccessorPlug(x: Tree, spath: seq<Frame>, f: Frame, path: seq<Frame>)
    ensures Plug(x, spath + [f] + path) == Plug(Attach(Plug(x, spath), f), path)
  {
    PlugAppend(x, spath + [f], path);
    PlugAppend(x, spath, [f]);
    PlugOne(Plug(x, spath), f, []);
  }

  /** Replacing a node with two children by its in-order successor removes exactly its key. */
  lemma SpliceSuccessorOrder(t: Tree, p: Tree, path: seq<Frame>, s: Tree, spath: seq<Frame>, k: int)
    requires Plug(p, path) == t && Increasing(InOrder(t))
    requires p.Node? && p.key == k && SearchTree(p)
    requires s.Node? && s.left.Nil? && Plug(s, spath) == p.right
    requires forall i :: 0 <= i < |spath| ==> spath[i].dir == L
    requires forall x :: x in Lo(path) ==> x < k
    requires forall x :: x in Hi(path) ==> k < x
    ensures var u := Plug(s.right, spath + [Frame(R, p.color, s.key, p.left)] + path);
            k in InOrder(t) && InOrder(u) == Remove(InOrder(t), k) && Increasing(InOrder(u))
  {
    var f := Frame(R, p.color, s.key, p.left);
    var m := Attach(Plug(s.right, spath), f);
    SuccessorPlug(s.right, spath, f, path);
    assert s == Node(s.color, Nil, s.key, s.right);
    SuccessorKeys(p.left, p.color, s.color, s.key, s.right, spath);
    assert k !in Lo(path) && k !in InOrder(p.left) && k !in InOrder(p.right) && k !in Hi(path);
    ReplaceFocus(p, m, path, k);
    RemoveIncreasing(InOrder(t), k);
  }

  /** The successor's subtree after the splice holds the removed node's keys except its own. */
  lemma SuccessorKeys(l: Tree, c: Color, sc: Color, sk: int, sr: Tree, spath: seq<Frame>)
    requires forall i :: 0 <= i < |spath| ==> spath[i].dir == L
    ensures InOrder(Attach(Plug(sr, spath), Frame(R, c, sk, l)))
         == InOrder(l) + InOrder(Plug(Node(sc, Nil, sk, sr), spath))
  {
    var x := Plug(sr, spath);
    var a, b, h := InOrder(l), InOrder(sr), Hi(spath);
    LeftSpineLo(spath);
    PlugInOrder(sr, spath);
    PlugInOrder(Node(sc, Nil, sk, sr), spath);
    assert InOrder(x) == [] + b + h;
    assert InOrder(Plug(Node(sc, Nil, sk, sr), spath)) == [] + ([sk] + b) + h;
    assert InOrder(Attach(x, Frame(R, c, sk, l))) == a + [sk] + InOrder(x);
    ConcatShift(a, sk, b, h);
  }

  lemma ConcatShift(a: seq<int>, k: int, b: seq<int>, h: seq<int>)
    ensures a + [k] + ([] + b + h) == a + ([] + ([k] + b) + h)
  {
  }

  /**
   * The successor's frame keeps the removed node's colour, so the new path
   * imposes the same conditions as the path to the successor did.
   */
  lemma SpliceSuccessorColors(t: Tree, p: Tree, path: seq<Frame>, s: Tree, spath: seq<Frame>)
    requires IsRB(t) && Plug(p, path) == t
    requires p.Node? && s.Node? && s.left.Nil? && Plug(s, spath) == p.right
    ensures var fpath := spath + [Frame(R, p.color, s.key, p.left)] + path;
            (s.color == Black ==> DelInv(s.right, fpath))
            && (s.color == Red ==>
                  var u := Plug(s.right, fpath); IsBlack(u) && NoRedRed(u) && Balanced(u))
  {
    var opath := spath + [Frame(R, p.color, p.key, p.left)] + path;
    var fpath := spath + [Frame(R, p.color, s.key, p.left)] + path;
    SuccessorPlug(s, spath, Frame(R, p.color, p.key, p.left), path);
    assert Attach(p.right, Frame(R, p.color, p.key, p.left)) == p;
    PlugIsRB(s, opath);
    assert SameShape(opath, fpath) by {
      forall i | 0 <= i < |opath|
        ensures opath[i].color == fpath[i].color && opath[i].sibling == fpath[i].sibling
      {
        if i < |spath| {
          assert opath[i] == spath[i] == fpath[i];
        } else if i > |spath| {
          assert opath[i] == path[i - |spath| - 1] == fpath[i];
        }
      }
    }
    SameShapeConditions(opath, fpath, BH(s), s.color);
    assert BH(s.right) == 0;
    BlackenFacts(s.right);
    PlugBalanced(s.right, fpath);
    PlugNoRedRed(s.right, fpath);
    PlugColor(s.right, fpath);
    if s.color == Red {
      PathRBBlack(fpath);
    }
  }

  // ------------------------------------------------------------ one lemma per repair case

  /** What every case reads off the invariant about the brother and the path above the parent. */
  lemma DelBrother(node: Tree, parent: Frame, rest: seq<Frame>)
    requires DelInv(node, [parent] + rest)
    ensures parent.sibling.Node? && Balanced(parent.sibling) && NoRedRed(parent.sibling)
    ensures BH(parent.sibling) == BH(node) + 1
    ensures parent.sibling.color == Red ==> parent.color == Black
    ensures PathBalanced(rest, BH(node) + 1 + Bump(parent.color))
    ensures PathRB(rest, parent.color) && PathRB(rest, Black) && RootBlack(rest)
    ensures rest == [] ==> parent.color == Black
  {
    var p := [parent] + rest;
    assert p[0] == parent && p[1..] == rest;
    if rest != [] {
      assert p[|p| - 1] == rest[|rest| - 1];
    }
    if parent.color == Red {
      PathRBBlack(rest);
    }
  }

  /**
   * Case 1, focus on the left: the red brother turns black, the parent red,
   * `rbt_rotate_left(parent)`; the focus gets a black brother under a red
   * parent.
   */
  lemma DelCase1Left(node: Tree, parent: Frame, rest: seq<Frame>)
    requires DelInv(node, [parent] + rest) && IsBlack(node)
    requires parent.dir == L && parent.sibling.Node? && parent.sibling.color == Red
    ensures var rot := RotateLeft(Attach(node, parent.(color := Red, sibling := parent.sibling.(color := Black))));
            var q := [Frame(L, rot.left.color, rot.left.key, rot.left.right), Frame(L, rot.color, rot.key, rot.right)] + rest;
            DelInv(node, q) && q[0].color == Red && q[0].dir == L
            && q[0].sibling.Node? && q[0].sibling.color == Black
            && InOrder(Plug(node, q)) == InOrder(Plug(node, [parent] + rest))
  {
    DelBrother(node, parent, rest);
    var b := parent.sibling;
    var rot := RotateLeft(Attach(node, parent.(color := Red, sibling := b.(color := Black))));
    var f0 := Frame(L, rot.left.color, rot.left.key, rot.left.right);
    var f1 := Frame(L, rot.color, rot.key, rot.right);
    var q := [f0, f1] + rest;
    var q1 := [f1] + rest;
    assert q[0] == f0 && q[1..] == q1 && q1[0] == f1 && q1[1..] == rest;
    assert BH(b.left) == BH(node) + 1;
    assert PathBalanced(q1, BH(node) + 1);
    assert PathRB(q1, Red);
    if rest != [] {
      assert q[|q| - 1] == rest[|rest| - 1];
    }
    assert Attach(Attach(node, f0), f1) == rot;
    TwoFramesOrder(node, f0, f1, parent, rest);
  }

  /** Two frames that rebuild the keys of one frame leave the keys of the whole tree as they were. */
  lemma TwoFramesOrder(node: Tree, f0: Frame, f1: Frame, parent: Frame, rest: seq<Frame>)
    requires InOrder(Attach(Attach(node, f0), f1)) == InOrder(Attach(node, parent))
    ensures InOrder(Plug(node, [f0, f1] + rest)) == InOrder(Plug(node, [parent] + rest))
  {
    assert [f0, f1] + rest == [f0] + ([f1] + rest);
    PlugOne(node, f0, [f1] + rest);
    PlugOne(Attach(node, f0), f1, rest);
    PlugOne(node, parent, rest);
    PlugSameInOrder(Attach(Attach(node, f0), f1), Attach(node, parent), rest);
  }

  /** Mirror of `DelCase1Left`: `rbt_rotate_right(parent)`. */
  lemma DelCase1Right(node: Tree, parent: Frame, rest: seq<Frame>)
    requires DelInv(node, [parent] + rest) && IsBlack(node)
    requires parent.dir == R && parent.sibling.Node? && parent.sibling.color == Red
    ensures var rot := RotateRight(Attach(node, parent.(color := Red, sibling := parent.sibling.(color := Black))));
            var q := [Frame(R, rot.right.color, rot.right.key, rot.right.left), Frame(R, rot.color, rot.key, rot.left)] + rest;
            DelInv(node, q) && q[0].color == Red && q[0].dir == R
            && q[0].sibling.Node? && q[0].sibling.color == Black
            && InOrder(Plug(node, q)) == InOrder(Plug(node, [parent] + rest))
  {
    DelBrother(node, parent, rest);
    var b := parent.sibling;
    var rot := RotateRight(Attach(node, parent.(color := Red, sibling := b.(color := Black))));
    var f0 := Frame(R, rot.right.color, rot.right.key, rot.right.left);
    var f1 := Frame(R, rot.color, rot.key, rot.left);
    var q := [f0, f1] + rest;
    var q1 := [f1] + rest;
    assert q[0] == f0 && q[1..] == q1 && q1[0] == f1 && q1[1..] == rest;
    assert BH(b.right) == BH(node) + 1;
    assert PathBalanced(q1, BH(node) + 1);
    assert PathRB(q1, Red);
    if rest != [] {
      assert q[|q| - 1] == rest[|rest| - 1];
    }
    assert Attach(Attach(node, f0), f1) == rot;
    TwoFramesOrder(node, f0, f1, parent, rest);
  }

  /**
   * Case 2 (either side): the black brother with black children turns red,
   * which evens the two sides; the parent becomes the focus, one level up.
   */
  lemma DelCase2(node: Tree, parent: Frame, rest: seq<Frame>)
    requires DelInv(node, [parent] + rest) && IsBlack(node)
    requires parent.sibling.Node? && parent.sibling.color == Black
    requires IsBlack(parent.sibling.left) && IsBlack(parent.sibling.right)
    ensures var up := Attach(node, parent.(sibling := parent.sibling.(color := Red)));
            DelInv(up, rest) && (IsBlack(up) <==> parent.color == Black)
            && InOrder(Plug(up, rest)) == InOrder(Plug(node, [parent] + rest))
  {
    DelBrother(node, parent, rest);
    BlackenFacts(node);
    var up := Attach(node, parent.(sibling := parent.sibling.(color := Red)));
    assert BH(up) == BH(node) + Bump(parent.color);
    BlackenFacts(up);
    PlugOne(node, parent, rest);
    PlugSameInOrder(up, Attach(node, parent), rest);
  }

  /**
   * Case 3, focus on the left: the brother's inner child is red and its
   * outer child black; the brother turns red, its inner child black,
   * `rbt_rotate_right(brother)`, so the new brother's outer child is red.
   */
  lemma DelCase3Left(node: Tree, parent: Frame, rest: seq<Frame>)
    requires DelInv(node, [parent] + rest) && IsBlack(node) && parent.dir == L
    requires parent.sibling.Node? && parent.sibling.color == Black
    requires !IsBlack(parent.sibling.left) && IsBlack(parent.sibling.right)
    ensures var b := parent.sibling;
            var nb := RotateRight(b.(color := Red, left := Blacken(b.left)));
            DelInv(node, [parent.(sibling := nb)] + rest)
            && nb.color == Black && nb.right.Node? && nb.right.color == Red
            && InOrder(Plug(node, [parent.(sibling := nb)] + rest)) == InOrder(Plug(node, [parent] + rest))
  {
    DelBrother(node, parent, rest);
    var b := parent.sibling;
    var nb := RotateRight(b.(color := Red, left := Blacken(b.left)));
    BrotherRotateRight(b);
    var q := [parent.(sibling := nb)] + rest;
    assert q[0] == parent.(sibling := nb) && q[1..] == rest;
    if rest != [] {
      assert q[|q| - 1] == rest[|rest| - 1];
    } else {
      assert q[|q| - 1] == parent.(sibling := nb);
    }
    PlugOne(node, parent.(sibling := nb), rest);
    PlugOne(node, parent, rest);
    PlugSameInOrder(Attach(node, parent.(sibling := nb)), Attach(node, parent), rest);
  }

  /** The case 3 rotation of a black brother with a red inner child keeps it balanced and black. */
  lemma BrotherRotateRight(b: Tree)
    requires b.Node? && b.color == Black && Balanced(b) && NoRedRed(b)
    requires b.left.Node? && b.left.color == Red && IsBlack(b.right)
    ensures var nb := RotateRight(b.(color := Red, left := Blacken(b.left)));
            Balanced(nb) && NoRedRed(nb) && BH(nb) == BH(b)
  {
    var x, y := b.left.left, b.left.right;
    assert BH(x) == BH(y) == BH(b.right);
    assert IsBlack(x) && IsBlack(y);
  }

  lemma BrotherRotateLeft(b: Tree)
    requires b.Node? && b.color == Black && Balanced(b) && NoRedRed(b)
    requires b.right.Node? && b.right.color == Red && IsBlack(b.left)
    ensures var nb := RotateLeft(b.(color := Red, right := Blacken(b.right)));
            Balanced(nb) && NoRedRed(nb) && BH(nb) == BH(b)
  {
    var x, y := b.right.left, b.right.right;
    assert BH(x) == BH(y) == BH(b.left);
    assert IsBlack(x) && IsBlack(y);
  }

  /** Mirror of `DelCase3Left`: `rbt_rotate_left(brother)`. */
  lemma DelCase3Right(node: Tree, parent: Frame, rest: seq<Frame>)
    requires DelInv(node, [parent] + rest) && IsBlack(node) && parent.dir == R
    requires parent.sibling.Node? && parent.sibling.color == Black
    requires IsBlack(parent.sibling.left) && !IsBlack(parent.sibling.right)
    ensures var b := parent.sibling;
            var nb := RotateLeft(b.(color := Red, right := Blacken(b.right)));
            DelInv(node, [parent.(sibling := nb)] + rest)
            && nb.color == Black && nb.left.Node? && nb.left.color == Red
            && InOrder(Plug(node, [parent.(sibling := nb)] + rest)) == InOrder(Plug(node, [parent] + rest))
  {
    DelBrother(node, parent, rest);
    var b := parent.sibling;
    var nb := RotateLeft(b.(color := Red, right := Blacken(b.right)));
    BrotherRotateLeft(b);
    var q := [parent.(sibling := nb)] + rest;
    assert q[0] == parent.(sibling := nb) && q[1..] == rest;
    if rest != [] {
      assert q[|q| - 1] == rest[|rest| - 1];
    } else {
      assert q[|q| - 1] == parent.(sibling := nb);
    }
    PlugOne(node, parent.(sibling := nb), rest);
    PlugOne(node, parent, rest);
    PlugSameInOrder(Attach(node, parent.(sibling := nb)), Attach(node, parent), rest);
  }

  /**
   * Case 4, focus on the left: the brother takes the parent's colour, the
   * parent and the brother's red outer child turn black,
   * `rbt_rotate_left(parent)`: the missing black level is restored and the
   * whole tree is valid.
   */
  lemma DelCase4Left(node: Tree, parent: Frame, rest: seq<Frame>)
    requires DelInv(node, [parent] + rest) && IsBlack(node) && parent.dir == L
    requires parent.sibling.Node? && parent.sibling.color == Black
    requires parent.sibling.right.Node? && parent.sibling.right.color == Red
    ensures var b := parent.sibling;
            var rot := RotateLeft(Attach(node, parent.(color := Black, sibling := b.(color := parent.color, right := Blacken(b.right)))));
            DelInv(Plug(rot, rest), [])
            && InOrder(Plug(rot, rest)) == InOrder(Plug(node, [parent] + rest))
  {
    DelBrother(node, parent, rest);
    BlackenFacts(node);
    var b := parent.sibling;
    Case4RotateLeft(node, parent.color, parent.key, b);
    var rot := RotateLeft(Attach(node, parent.(color := Black, sibling := b.(color := parent.color, right := Blacken(b.right)))));
    PlugBalanced(rot, rest);
    PlugNoRedRed(rot, rest);
    BlackenFacts(Plug(rot, rest));
    PlugOne(node, parent, rest);
    PlugSameInOrder(rot, Attach(node, parent), rest);
  }

  /** The case 4 rotation restores the missing black level on the focus's side. */
  lemma Case4RotateLeft(x: Tree, c: Color, k: int, b: Tree)
    requires IsBlack(x) && Balanced(x) && NoRedRed(x)
    requires b.Node? && b.color == Black && Balanced(b) && NoRedRed(b) && BH(b) == BH(x) + 1
    requires b.right.Node? && b.right.color == Red
    ensures var rot := RotateLeft(Node(Black, x, k, b.(color := c, right := Blacken(b.right))));
            Balanced(rot) && NoRedRed(rot) && BH(rot) == BH(x) + 1 + Bump(c)
            && InOrder(rot) == InOrder(x) + [k] + InOrder(b)
  {
    var nr := Blacken(b.right);
    BlackenFacts(b.right);
    var low := Node(Black, x, k, b.left);
    var rot := Node(c, low, b.key, nr);
    assert RotateLeft(Node(Black, x, k, b.(color := c, right := nr))) == rot;
    assert BH(b.left) == BH(x) && BH(nr) == BH(x) + 1;
    assert Balanced(low) && NoRedRed(low) && BH(low) == BH(x) + 1;
    assert InOrder(b.(color := c, right := nr)) == InOrder(b);
  }

  /** Mirror of `DelCase4Left`: `rbt_rotate_right(parent)`. */
  lemma DelCase4Right(node: Tree, parent: Frame, rest: seq<Frame>)
    requires DelInv(node, [parent] + rest) && IsBlack(node) && parent.dir == R
    requires parent.sibling.Node? && parent.sibling.color == Black
    requires parent.sibling.left.Node? && parent.sibling.left.color == Red
    ensures var b := parent.sibling;
            var rot := RotateRight(Attach(node, parent.(color := Black, sibling := b.(color := parent.color, left := Blacken(b.left)))));
            DelInv(Plug(rot, rest), [])
            && InOrder(Plug(rot, rest)) == InOrder(Plug(node, [parent] + rest))
  {
    DelBrother(node, parent, rest);
    BlackenFacts(node);
    var b := parent.sibling;
    Case4RotateRight(node, parent.color, parent.key, b);
    var rot := RotateRight(Attach(node, parent.(color := Black, sibling := b.(color := parent.color, left := Blacken(b.left)))));
    PlugBalanced(rot, rest);
    PlugNoRedRed(rot, rest);
    BlackenFacts(Plug(rot, rest));
    PlugOne(node, parent, rest);
    PlugSameInOrder(rot, Attach(node, parent), rest);
  }

  lemma Case4RotateRight(x: Tree, c: Color, k: int, b: Tree)
    requires IsBlack(x) && Balanced(x) && NoRedRed(x)
    requires b.Node? && b.color == Black && Balanced(b) && NoRedRed(b) && BH(b) == BH(x) + 1
    requires b.left.Node? && b.left.color == Red
    ensures var rot := RotateRight(Node(Black, b.(color := c, left := Blacken(b.left)), k, x));
            Balanced(rot) && NoRedRed(rot) && BH(rot) == BH(x) + 1 + Bump(c)
            && InOrder(rot) == InOrder(b) + [k] + InOrder(x)
  {
    var nl := Blacken(b.left);
    BlackenFacts(b.left);
    var high := Node(Black, b.right, k, x);
    var rot := Node(c, nl, b.key, high);
    assert RotateRight(Node(Black, b.(color := c, left := nl), k, x)) == rot;
    assert BH(b.right) == BH(x) && BH(nl) == BH(x) + 1;
    assert Balanced(high) && NoRedRed(high) && BH(high) == BH(x) + 1;
    assert InOrder(b.(color := c, left := nl)) == InOrder(b);
  }

  // ------------------------------------------------------------ case 1 of the left branch as written

  /**
   * Case 1 of the left branch as the code writes it (dp-tree.hh:448-452):
   * the brother turns black and the parent red, and then the rotation is
   * made at the focus instead of at the parent. None when that rotation
   * dereferences a null pointer.
   */
  function LeftCase1AsWritten(node: Tree, parent: Frame, rest: seq<Frame>): (r: Option<Tree>)
    requires parent.dir == L && parent.sibling.Node?
    ensures r.None? <==> node.Nil? || node.right.Nil?
    ensures r.Some? ==> InOrder(r.value) == InOrder(Plug(node, [parent] + rest))
  {
    match RotateLeftAt(node)
    case None => None
    case Some(n) =>
      var q := [parent.(color := Red, sibling := parent.sibling.(color := Black))];
      PlugAppend(n, q, rest);
      PlugAppend(node, q, rest);
      PlugSameInOrder(Plug(n, q), Plug(node, q), rest);
      PlugOne(node, parent, rest);
      PlugSameInOrder(Attach(node, q[0]), Attach(node, parent), rest);
      Some(Plug(n, q + rest))
  }

  /** The sibling in the example below: 4R(3B, 5B(-, 6R)). */
  function RedBrother(): Tree
  {
    Node(Red, Node(Black, Nil, 3, Nil), 4, Node(Black, Nil, 5, Node(Red, Nil, 6, Nil)))
  }

  /**
   * Deleting 1 from the valid tree 2B(1B, 4R(3B, 5B(-, 6R))) leaves a null
   * focus whose brother is red: the repair starts in case 1, and the code as
   * written rotates at the null focus, while the invariant the corrected case
   * 1 (`DelCase1Left`) needs holds.
   */
  lemma LeftCase1NullFocus()
    ensures var f := Frame(L, Black, 2, RedBrother());
            var t := Plug(Node(Black, Nil, 1, Nil), [f]);
            IsRB(t) && InOrder(t) == [1, 2, 3, 4, 5, 6]
            && DelInv(Nil, [f]) && f.sibling.color == Red
            && LeftCase1AsWritten(Nil, f, []) == None
  {
    var f := Frame(L, Black, 2, RedBrother());
    NullFocusTree();
    NullFocusInv(f);
  }

  lemma NullFocusTree()
    ensures var t := Plug(Node(Black, Nil, 1, Nil), [Frame(L, Black, 2, RedBrother())]);
            IsRB(t) && InOrder(t) == [1, 2, 3, 4, 5, 6]
  {
    var t := Node(Black, Node(Black, Nil, 1, Nil), 2, RedBrother());
    assert Plug(Node(Black, Nil, 1, Nil), [Frame(L, Black, 2, RedBrother())]) == t;
    NullFocusInOrder(t);
    assert Increasing([1, 2, 3, 4, 5, 6]);
    SearchTreeIffIncreasing(t);
    assert Balanced(RedBrother()) && NoRedRed(RedBrother()) && BH(RedBrother()) == 1;
  }

  lemma NullFocusInOrder(t: Tree)
    requires t == Node(Black, Node(Black, Nil, 1, Nil), 2, RedBrother())
    ensures InOrder(t) == [1, 2, 3, 4, 5, 6]
  {
    var five := Node(Black, Nil, 5, Node(Red, Nil, 6, Nil));
    assert InOrder(five) == [5, 6];
    assert InOrder(RedBrother()) == [3] + [4] + [5, 6];
    assert InOrder(t) == [1] + [2] + [3, 4, 5, 6];
  }

  lemma NullFocusInv(f: Frame)
    requires f == Frame(L, Black, 2, RedBrother())
    ensures DelInv(Nil, [f])
  {
    assert BH(RedBrother()) == 1;
  }

  /** When the loop stops, blackening the focus restores the missing black level. */
  lemma DelDone(node: Tree, path: seq<Frame>)
    requires DelInv(node, path) && !(IsBlack(node) && path != [])
    ensures var root := Plug(Blacken(node), path);
            IsBlack(root) && NoRedRed(root) && Balanced(root)
            && InOrder(root) == InOrder(Plug(node, path))
  {
    BlackenFacts(node);
    PlugBalanced(Blacken(node), path);
    PlugNoRedRed(Blacken(node), path);
    PlugColor(Blacken(node), path);
    PlugSameInOrder(Blacken(node), node, path);
  }
}
