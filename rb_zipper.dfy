/**
 * The `parent` links of `rb_node_t`, on the value model. The engine of
 * `rb_tree` holds a pointer to one node and walks up through `parent`; here
 * that position is a focus subtree plus the path of its ancestors, nearest
 * first. `Plug` rebuilds the whole tree from the two, which is what the
 * `root` reference reads after the engine has written through the links.
 */
module RbZipper {
  import opened TreeOps
  import opened RbSpec

  datatype Dir = L | R

  /**
   * One ancestor of the focus: whether the focus hangs to its left or its
   * right, the ancestor's colour and key, and its other child.
   */
  datatype Frame = Frame(dir: Dir, color: Color, key: int, sibling: Tree)

  function Attach(t: Tree, f: Frame): Tree
  {
    if f.dir == L then Node(f.color, t, f.key, f.sibling)
    else Node(f.color, f.sibling, f.key, t)
  }

  /** The tree rebuilt from a focus and its ancestors, nearest first. */
  function Plug(t: Tree, p: seq<Frame>): Tree
    decreases |p|
  {
    if p == [] then t else Plug(Attach(t, p[0]), p[1..])
  }

  /** The keys that come before the focus in order. */
  function Lo(p: seq<Frame>): seq<int>
    decreases |p|
  {
    if p == [] then []
    else if p[0].dir == R then Lo(p[1..]) + InOrder(p[0].sibling) + [p[0].key]
    else Lo(p[1..])
  }

  /** The keys that come after the focus in order. */
  function Hi(p: seq<Frame>): seq<int>
    decreases |p|
  {
    if p == [] then []
    else if p[0].dir == L then [p[0].key] + InOrder(p[0].sibling) + Hi(p[1..])
    else Hi(p[1..])
  }

  /** Black-height condition along the path, for a focus of black height `h`. */
  predicate PathBalanced(p: seq<Frame>, h: nat)
    decreases |p|
  {
    p == [] ||
    (Balanced(p[0].sibling) && BH(p[0].sibling) == h
     && PathBalanced(p[1..], h + Bump(p[0].color)))
  }

  /** No red ancestor with a red child, for a focus of colour `c`. */
  predicate PathRB(p: seq<Frame>, c: Color)
    decreases |p|
  {
    p == [] ||
    (NoRedRed(p[0].sibling)
     && (p[0].color == Red ==> c == Black && IsBlack(p[0].sibling))
     && PathRB(p[1..], p[0].color))
  }

  /** The root of the rebuilt tree is black. */
  predicate RootBlack(p: seq<Frame>)
  {
    p != [] ==> p[|p| - 1].color == Black
  }

  // ------------------------------------------------------------ lemmas

  /** The in-order sequence of the rebuilt tree: keys before, the focus, keys after. */
  lemma {:induction false} PlugInOrder(t: Tree, p: seq<Frame>)
    ensures InOrder(Plug(t, p)) == Lo(p) + InOrder(t) + Hi(p)
    decreases |p|
  {
    if p != [] {
      var f := p[0];
      PlugInOrder(Attach(t, f), p[1..]);
      if f.dir == L {
        assert InOrder(Attach(t, f)) == InOrder(t) + [f.key] + InOrder(f.sibling);
      } else {
        assert InOrder(Attach(t, f)) == InOrder(f.sibling) + [f.key] + InOrder(t);
      }
    }
  }

  /** The innermost frame attaches first. */
  lemma PlugOne(t: Tree, a: Frame, rest: seq<Frame>)
    ensures Plug(t, [a] + rest) == Plug(Attach(t, a), rest)
  {
    assert ([a] + rest)[0] == a && ([a] + rest)[1..] == rest;
  }

  /** Two foci with the same keys in order give rebuilt trees with the same keys in order. */
  lemma PlugSameInOrder(t: Tree, u: Tree, p: seq<Frame>)
    requires InOrder(t) == InOrder(u)
    ensures InOrder(Plug(t, p)) == InOrder(Plug(u, p))
  {
    PlugInOrder(t, p);
    PlugInOrder(u, p);
  }

  /** Rebuilding in two stages. */
  lemma {:induction false} PlugAppend(t: Tree, a: seq<Frame>, b: seq<Frame>)
    ensures Plug(t, a + b) == Plug(Plug(t, a), b)
    decreases |a|
  {
    if a == [] {
      assert a + b == b;
    } else {
      assert (a + b)[0] == a[0];
      assert (a + b)[1..] == a[1..] + b;
      PlugAppend(Attach(t, a[0]), a[1..], b);
    }
  }

  /** The rebuilt tree is balanced exactly when the focus and the path are. */
  lemma {:induction false} PlugBalanced(t: Tree, p: seq<Frame>)
    ensures Balanced(Plug(t, p)) <==> Balanced(t) && PathBalanced(p, BH(t))
    decreases |p|
  {
    if p != [] {
      PlugBalanced(Attach(t, p[0]), p[1..]);
    }
  }

  /** The rebuilt tree has no red-red edge exactly when neither the focus nor the path has one. */
  lemma {:induction false} PlugNoRedRed(t: Tree, p: seq<Frame>)
    ensures NoRedRed(Plug(t, p)) <==> NoRedRed(t) && PathRB(p, ColorOf(t))
    decreases |p|
  {
    if p != [] {
      PlugNoRedRed(Attach(t, p[0]), p[1..]);
    }
  }

  /** The colour of the rebuilt tree's root is the farthest ancestor's, or the focus's. */
  lemma {:induction false} PlugColor(t: Tree, p: seq<Frame>)
    ensures p == [] ==> Plug(t, p) == t
    ensures p != [] ==> Plug(t, p).Node? && Plug(t, p).color == p[|p| - 1].color
    decreases |p|
  {
    if p != [] {
      PlugColor(Attach(t, p[0]), p[1..]);
      if |p| > 1 {
        assert p[1..][|p| - 2] == p[|p| - 1];
      }
    }
  }

  /** A path that tolerates a red focus tolerates a black one. */
  lemma PathRBBlack(p: seq<Frame>)
    requires PathRB(p, Red)
    ensures PathRB(p, Black)
  {
  }

  /** Frames that differ only in their keys impose the same colour conditions. */
  predicate SameShape(p: seq<Frame>, q: seq<Frame>)
  {
    |p| == |q| &&
    forall i :: 0 <= i < |p| ==> p[i].color == q[i].color && p[i].sibling == q[i].sibling
  }

  lemma {:induction false} SameShapeConditions(p: seq<Frame>, q: seq<Frame>, h: nat, c: Color)
    requires SameShape(p, q)
    ensures PathBalanced(p, h) == PathBalanced(q, h)
    ensures PathRB(p, c) == PathRB(q, c)
    ensures RootBlack(p) == RootBlack(q)
    decreases |p|
  {
    if p != [] {
      assert SameShape(p[1..], q[1..]) by {
        forall i | 0 <= i < |p| - 1
          ensures p[1..][i].color == q[1..][i].color && p[1..][i].sibling == q[1..][i].sibling
        {
          assert p[1..][i] == p[i + 1] && q[1..][i] == q[i + 1];
        }
      }
      SameShapeConditions(p[1..], q[1..], h + Bump(p[0].color), p[0].color);
    }
  }

  /**
   * A tree is a valid red-black tree exactly when its keys ascend and the
   * focus and path satisfy the colour conditions.
   */
  lemma PlugIsRB(t: Tree, p: seq<Frame>)
    ensures IsRB(Plug(t, p))
        <==> Increasing(InOrder(Plug(t, p)))
             && Balanced(t) && PathBalanced(p, BH(t))
             && NoRedRed(t) && PathRB(p, ColorOf(t))
             && (if p == [] then IsBlack(t) else RootBlack(p))
  {
    SearchTreeIffIncreasing(Plug(t, p));
    PlugBalanced(t, p);
    PlugNoRedRed(t, p);
    PlugColor(t, p);
  }
}
