/**
 * The node type of `rb_tree` and the recursive helpers of `tree_ops`:
 * `calc_height`, `calc_count` and the depth- and breadth-first traversals.
 *
 * A node pointer is modelled by the subtree it roots (`Nil` is the null
 * pointer). A traversal takes a visitor callback; the model returns the
 * sequence of keys of the nodes handed to that callback, in call order.
 */
module TreeOps {

  datatype Color = Red | Black

  datatype Tree = Nil | Node(color: Color, left: Tree, key: int, right: Tree)

  /** `calc_height`: 0 for a null pointer, else one more than the taller child. */
  function Height(t: Tree): nat
  {
    match t
    case Nil => 0
    case Node(_, l, _, r) => (if Height(l) > Height(r) then Height(l) else Height(r)) + 1
  }

  /** `calc_count`: the number of nodes reachable through child links. */
  function Count(t: Tree): nat
  {
    match t
    case Nil => 0
    case Node(_, l, _, r) => 1 + Count(l) + Count(r)
  }

  /** `traverse_in_order`: left subtree, the node, right subtree. */
  function InOrder(t: Tree): seq<int>
  {
    match t
    case Nil => []
    case Node(_, l, k, r) => InOrder(l) + [k] + InOrder(r)
  }

  /** `traverse_pre_order`: the node, then left, then right. */
  function PreOrder(t: Tree): seq<int>
  {
    match t
    case Nil => []
    case Node(_, l, k, r) => [k] + PreOrder(l) + PreOrder(r)
  }

  /** `traverse_post_order`: left, right, then the node. */
  function PostOrder(t: Tree): seq<int>
  {
    match t
    case Nil => []
    case Node(_, l, k, r) => PostOrder(l) + PostOrder(r) + [k]
  }

  function Reverse(s: seq<int>): (r: seq<int>)
    ensures |r| == |s|
  {
    if s == [] then [] else Reverse(s[1..]) + [s[0]]
  }

  /**
   * `traverse_in_order_rev` AS WRITTEN: the top level visits right, node,
   * left, but both recursive calls go to `traverse_in_order`, so every
   * deeper level is visited in ascending order.
   */
  function InOrderRevAsWritten(t: Tree): seq<int>
  {
    match t
    case Nil => []
    case Node(_, l, k, r) => InOrder(r) + [k] + InOrder(l)
  }

  /** The intended reverse in-order traversal: recursion on itself. */
  function InOrderRev(t: Tree): seq<int>
  {
    match t
    case Nil => []
    case Node(_, l, k, r) => InOrderRev(r) + [k] + InOrderRev(l)
  }

  /** `traverse_current_level`: the nodes at depth `level` (the root is level 1), left to right. */
  function CurrentLevel(t: Tree, level: int): seq<int>
    decreases t
  {
    match t
    case Nil => []
    case Node(_, l, k, r) =>
      if level == 1 then [k]
      else if level > 1 then CurrentLevel(l, level - 1) + CurrentLevel(r, level - 1)
      else []
  }

  /** Levels 1..n, concatenated in increasing depth. */
  function LevelsUpTo(t: Tree, n: int): seq<int>
    decreases if n < 0 then 0 else n
  {
    if n < 1 then [] else LevelsUpTo(t, n - 1) + CurrentLevel(t, n)
  }

  /**
   * `traverse_level_order`: one `traverse_current_level` pass per level,
   * for levels 1 to `calc_height`. Every node is visited exactly once.
   */
  method LevelOrder(t: Tree) returns (visited: seq<int>)
    ensures visited == LevelsUpTo(t, Height(t))
    ensures multiset(visited) == multiset(InOrder(t))
  {
    var h := Height(t);
    var i := 1;
    visited := [];
    while i <= h
      invariant 1 <= i <= h + 1
      invariant visited == LevelsUpTo(t, i - 1)
    {
      visited := visited + CurrentLevel(t, i);
      i := i + 1;
    }
    LevelsCoverTree(t, h);
  }

  // ---------------------------------------------------------------- lemmas

  /** `calc_count` agrees with the number of nodes the in-order traversal visits. */
  lemma {:induction false} CountIsInOrderLength(t: Tree)
    ensures Count(t) == |InOrder(t)|
  {
    match t
    case Nil =>
    case Node(_, l, _, r) =>
      CountIsInOrderLength(l);
      CountIsInOrderLength(r);
  }

  function Pow2(n: nat): (p: nat)
    ensures p >= 1
  {
    if n == 0 then 1 else 2 * Pow2(n - 1)
  }

  lemma {:induction false} Pow2Monotone(a: nat, b: nat)
    requires a <= b
    ensures Pow2(a) <= Pow2(b)
  {
    if a < b {
      Pow2Monotone(a, b - 1);
    }
  }

  /** Height and count bound each other: h <= n < 2^h. */
  lemma {:induction false} HeightCountBounds(t: Tree)
    ensures Height(t) <= Count(t)
    ensures Count(t) < Pow2(Height(t))
  {
    match t
    case Nil =>
    case Node(_, l, _, r) =>
      HeightCountBounds(l);
      HeightCountBounds(r);
      var hl, hr := Height(l), Height(r);
      var m := if hl > hr then hl else hr;
      Pow2Monotone(hl, m);
      Pow2Monotone(hr, m);
  }

  /** The three depth-first traversals visit the same nodes. */
  lemma {:induction false} TraversalsSameNodes(t: Tree)
    ensures multiset(PreOrder(t)) == multiset(InOrder(t))
    ensures multiset(PostOrder(t)) == multiset(InOrder(t))
  {
    match t
    case Nil =>
    case Node(_, l, k, r) =>
      TraversalsSameNodes(l);
      TraversalsSameNodes(r);
      assert PreOrder(t) == [k] + PreOrder(l) + PreOrder(r);
      assert InOrder(t) == InOrder(l) + [k] + InOrder(r);
      assert PostOrder(t) == PostOrder(l) + PostOrder(r) + [k];
  }

  lemma {:induction false} ReverseAppend(a: seq<int>, b: seq<int>)
    ensures Reverse(a + b) == Reverse(b) + Reverse(a)
    decreases |a|
  {
    if a == [] {
      assert a + b == b;
    } else {
      assert (a + b)[1..] == a[1..] + b;
      ReverseAppend(a[1..], b);
    }
  }

  /** The intended reverse traversal is the in-order traversal backwards. */
  lemma {:induction false} InOrderRevIsReverse(t: Tree)
    ensures InOrderRev(t) == Reverse(InOrder(t))
  {
    match t
    case Nil =>
    case Node(_, l, k, r) =>
      InOrderRevIsReverse(l);
      InOrderRevIsReverse(r);
      ReverseAppend(InOrder(l) + [k], InOrder(r));
      ReverseAppend(InOrder(l), [k]);
      assert Reverse([k]) == [k];
  }

  /**
   * The as-written reverse traversal is not the reverse in-order sequence
   * once a subtree below the root has two levels: here it yields 3, 1, 2.
   */
  lemma InOrderRevAsWrittenDiffers()
    ensures var t := Node(Black, Node(Black, Node(Red, Nil, 1, Nil), 2, Nil), 3, Nil);
            InOrderRevAsWritten(t) == [3, 1, 2] && Reverse(InOrder(t)) == [3, 2, 1]
  {
    var t := Node(Black, Node(Black, Node(Red, Nil, 1, Nil), 2, Nil), 3, Nil);
    assert InOrder(t) == [1, 2, 3];
    assert Reverse([1, 2, 3]) == Reverse([2, 3]) + [1];
    assert Reverse([2, 3]) == Reverse([3]) + [2];
  }

  /** Levels deeper than the height are empty. */
  lemma {:induction false} LevelBeyondHeightEmpty(t: Tree, level: int)
    requires level > Height(t)
    ensures CurrentLevel(t, level) == []
  {
    match t
    case Nil =>
    case Node(_, l, _, r) =>
      LevelBeyondHeightEmpty(l, level - 1);
      LevelBeyondHeightEmpty(r, level - 1);
  }

  /** Every level from 1 to the height holds at least one node. */
  lemma {:induction false} LevelWithinHeightNonEmpty(t: Tree, level: int)
    requires 1 <= level <= Height(t)
    ensures CurrentLevel(t, level) != []
  {
    match t
    case Node(_, l, _, r) =>
      if level > 1 {
        if Height(l) >= Height(r) {
          LevelWithinHeightNonEmpty(l, level - 1);
        } else {
          LevelWithinHeightNonEmpty(r, level - 1);
        }
      }
  }

  lemma MultisetRegroup(k: int, x: seq<int>, pl: seq<int>, pr: seq<int>, cl: seq<int>, cr: seq<int>)
    requires multiset(x) == multiset([k]) + multiset(pl) + multiset(pr)
    ensures multiset(x + (cl + cr)) == multiset([k]) + multiset(pl + cl) + multiset(pr + cr)
  {
  }

  /** Level i + 1 of a node is level i of its left child followed by level i of its right child. */
  lemma {:induction false} LevelsOfNode(c: Color, l: Tree, k: int, r: Tree, n: int)
    requires n >= 1
    ensures multiset(LevelsUpTo(Node(c, l, k, r), n))
         == multiset([k]) + multiset(LevelsUpTo(l, n - 1)) + multiset(LevelsUpTo(r, n - 1))
    decreases n
  {
    if n == 1 {
      LevelsOfNodeFirst(c, l, k, r);
    } else {
      LevelsOfNode(c, l, k, r, n - 1);
      LevelsOfNodeNext(c, l, k, r, n);
    }
  }

  lemma LevelsOfNodeFirst(c: Color, l: Tree, k: int, r: Tree)
    ensures multiset(LevelsUpTo(Node(c, l, k, r), 1))
         == multiset([k]) + multiset(LevelsUpTo(l, 0)) + multiset(LevelsUpTo(r, 0))
  {
    assert LevelsUpTo(Node(c, l, k, r), 1) == LevelsUpTo(Node(c, l, k, r), 0) + CurrentLevel(Node(c, l, k, r), 1);
  }

  lemma LevelsOfNodeNext(c: Color, l: Tree, k: int, r: Tree, n: int)
    requires n >= 2
    requires multiset(LevelsUpTo(Node(c, l, k, r), n - 1))
          == multiset([k]) + multiset(LevelsUpTo(l, n - 2)) + multiset(LevelsUpTo(r, n - 2))
    ensures multiset(LevelsUpTo(Node(c, l, k, r), n))
         == multiset([k]) + multiset(LevelsUpTo(l, n - 1)) + multiset(LevelsUpTo(r, n - 1))
  {
    var t := Node(c, l, k, r);
    var cl, cr := CurrentLevel(l, n - 1), CurrentLevel(r, n - 1);
    assert LevelsUpTo(t, n) == LevelsUpTo(t, n - 1) + (cl + cr);
    assert LevelsUpTo(l, n - 1) == LevelsUpTo(l, n - 2) + cl;
    assert LevelsUpTo(r, n - 1) == LevelsUpTo(r, n - 2) + cr;
    MultisetRegroup(k, LevelsUpTo(t, n - 1), LevelsUpTo(l, n - 2), LevelsUpTo(r, n - 2), cl, cr);
  }

  /** Levels beyond the height add nothing. */
  lemma {:induction false} LevelsSaturate(t: Tree, n: int)
    requires n >= Height(t)
    ensures LevelsUpTo(t, n) == LevelsUpTo(t, Height(t))
    decreases n
  {
    if n > Height(t) {
      LevelsSaturate(t, n - 1);
      LevelBeyondHeightEmpty(t, n);
    }
  }

  /** Levels 1..n, for any n at least the height, visit every node exactly once. */
  lemma {:induction false} LevelsCoverTree(t: Tree, n: int)
    requires n >= Height(t)
    ensures multiset(LevelsUpTo(t, n)) == multiset(InOrder(t))
  {
    match t
    case Nil =>
      LevelsSaturate(t, n);
    case Node(c, l, k, r) =>
      LevelsOfNode(c, l, k, r, n);
      LevelsCoverTree(l, n - 1);
      LevelsCoverTree(r, n - 1);
      CoverCombine(k, LevelsUpTo(t, n), InOrder(l), InOrder(r), LevelsUpTo(l, n - 1), LevelsUpTo(r, n - 1));
  }

  lemma CoverCombine(k: int, x: seq<int>, a: seq<int>, b: seq<int>, la: seq<int>, lb: seq<int>)
    requires multiset(x) == multiset([k]) + multiset(la) + multiset(lb)
    requires multiset(la) == multiset(a) && multiset(lb) == multiset(b)
    ensures multiset(x) == multiset(a + [k] + b)
  {
  }
}
