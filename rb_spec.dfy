/**
 * What a red-black tree promises, stated on the value model of `rb_node_t`:
 * search-tree order, a black root, no red node with a red child and the
 * same number of black nodes on every root-to-leaf path. `SortedInsert`
 * and `Remove` are the reference behaviour of insertion and deletion on the
 * in-order key sequence.
 */
module RbSpec {
  import opened TreeOps

  // ------------------------------------------------------------ key order

  predicate Increasing(s: seq<int>)
  {
    forall i, j :: 0 <= i < j < |s| ==> s[i] < s[j]
  }

  /** The search-tree property checked node by node, as `insert_rbt`'s descent relies on it. */
  predicate SearchTree(t: Tree)
  {
    match t
    case Nil => true
    case Node(_, l, k, r) =>
      SearchTree(l) && SearchTree(r)
      && (forall x :: x in InOrder(l) ==> x < k)
      && (forall x :: x in InOrder(r) ==> k < x)
  }

  // ------------------------------------------------------------ colours

  /** A null pointer counts as black. */
  predicate IsBlack(t: Tree)
  {
    t.Nil? || t.color == Black
  }

  function ColorOf(t: Tree): (c: Color)
    ensures c == Black <==> IsBlack(t)
  {
    if t.Nil? then Black else t.color
  }

  function Bump(c: Color): nat
  {
    if c == Black then 1 else 0
  }

  /** Black nodes on the leftmost path; on a balanced tree, on every path. */
  function BH(t: Tree): nat
  {
    match t
    case Nil => 0
    case Node(c, l, _, _) => BH(l) + Bump(c)
  }

  predicate Balanced(t: Tree)
  {
    match t
    case Nil => true
    case Node(_, l, _, r) => Balanced(l) && Balanced(r) && BH(l) == BH(r)
  }

  predicate NoRedRed(t: Tree)
  {
    match t
    case Nil => true
    case Node(c, l, _, r) =>
      NoRedRed(l) && NoRedRed(r) && (c == Red ==> IsBlack(l) && IsBlack(r))
  }

  predicate IsRB(t: Tree)
  {
    SearchTree(t) && IsBlack(t) && NoRedRed(t) && Balanced(t)
  }

  /** `node->color_is_red = false` on a possibly null pointer. */
  function Blacken(t: Tree): (r: Tree)
    ensures IsBlack(r) && InOrder(r) == InOrder(t)
    ensures t.Node? ==> r == t.(color := Black)
    ensures t.Nil? ==> r == Nil
  {
    if t.Nil? then Nil else t.(color := Black)
  }

  /** Blackening a subtree's root keeps it balanced, adds one black level to a red root, and cannot create a red-red edge. */
  lemma BlackenFacts(t: Tree)
    ensures Balanced(t) ==> Balanced(Blacken(t))
    ensures BH(Blacken(t)) == if IsBlack(t) then BH(t) else BH(t) + 1
    ensures NoRedRed(t) ==> NoRedRed(Blacken(t))
    ensures IsBlack(t) ==> Blacken(t) == t
  {
  }

  // ------------------------------------------------------------ height bound

  /** A balanced tree of black height `h` holds at least 2^h - 1 nodes. */
  lemma {:induction false} BlackHeightCount(t: Tree)
    requires Balanced(t)
    ensures Pow2(BH(t)) <= Count(t) + 1
  {
    match t
    case Nil =>
    case Node(c, l, _, r) =>
      BlackHeightCount(l);
      BlackHeightCount(r);
  }

  /** Without red-red edges, a path has at most one red node per black one. */
  lemma {:induction false} HeightBlackHeight(t: Tree)
    requires Balanced(t) && NoRedRed(t)
    ensures Height(t) <= 2 * BH(t) + (if IsBlack(t) then 0 else 1)
  {
    match t
    case Nil =>
    case Node(c, l, _, r) =>
      HeightBlackHeight(l);
      HeightBlackHeight(r);
  }

  /** A red-black tree of `n` nodes is at most about 2 log2(n + 1) high. */
  lemma RbHeightBound(t: Tree)
    requires IsRB(t)
    ensures Pow2(Height(t) / 2) <= Count(t) + 1
  {
    HeightBlackHeight(t);
    BlackHeightCount(t);
    Pow2Monotone(Height(t) / 2, BH(t));
  }

  // ------------------------------------------------------------ reference operations

  /** Inserting `k` into an ascending sequence: nothing changes when `k` is already there. */
  function SortedInsert(s: seq<int>, k: int): (r: seq<int>)
    ensures forall x :: x in r <==> x in s || x == k
  {
    if s == [] then [k]
    else if k < s[0] then [k] + s
    else if k == s[0] then s
    else [s[0]] + SortedInsert(s[1..], k)
  }

  /** Every occurrence of `k` dropped, the rest kept in order. */
  function Remove(s: seq<int>, k: int): (r: seq<int>)
    ensures forall x :: x in r <==> x in s && x != k
    ensures |r| <= |s|
  {
    if s == [] then []
    else if s[0] == k then Remove(s[1..], k)
    else [s[0]] + Remove(s[1..], k)
  }

  // ------------------------------------------------------------ lemmas on order

  lemma IncreasingCons(x: int, s: seq<int>)
    ensures Increasing([x] + s) <==> (forall y :: y in s ==> x < y) && Increasing(s)
  {
    var xs := [x] + s;
    if (forall y :: y in s ==> x < y) && Increasing(s) {
      forall i, j | 0 <= i < j < |xs|
        ensures xs[i] < xs[j]
      {
        assert xs[j] == s[j - 1] && s[j - 1] in s;
        if i > 0 {
          assert xs[i] == s[i - 1];
        }
      }
    }
    if Increasing(xs) {
      forall y | y in s
        ensures x < y
      {
        var j :| 0 <= j < |s| && s[j] == y;
        assert xs[0] == x && xs[j + 1] == y;
      }
      forall i, j | 0 <= i < j < |s|
        ensures s[i] < s[j]
      {
        assert xs[i + 1] == s[i] && xs[j + 1] == s[j];
      }
    }
  }

  /** An ascending sequence around a pivot: ascending halves, smaller keys left, larger right. */
  lemma IncreasingAround(a: seq<int>, k: int, b: seq<int>)
    ensures Increasing(a + [k] + b)
        <==> Increasing(a) && Increasing(b)
             && (forall x :: x in a ==> x < k) && (forall x :: x in b ==> k < x)
  {
    if Increasing(a + [k] + b) {
      IncreasingSplit(a, k, b);
    }
    if Increasing(a) && Increasing(b) && (forall x :: x in a ==> x < k) && (forall x :: x in b ==> k < x) {
      IncreasingJoin(a, k, b);
    }
  }

  lemma IncreasingSplit(a: seq<int>, k: int, b: seq<int>)
    requires Increasing(a + [k] + b)
    ensures Increasing(a) && Increasing(b)
    ensures (forall x :: x in a ==> x < k) && (forall x :: x in b ==> k < x)
  {
    var s := a + [k] + b;
    assert forall i :: 0 <= i < |a| ==> s[i] == a[i];
    assert s[|a|] == k;
    assert forall i :: 0 <= i < |b| ==> s[|a| + 1 + i] == b[i];
    forall x | x in a
      ensures x < k
    {
      var i :| 0 <= i < |a| && a[i] == x;
    }
    forall x | x in b
      ensures k < x
    {
      var i :| 0 <= i < |b| && b[i] == x;
      assert s[|a| + 1 + i] == x;
    }
    forall i, j | 0 <= i < j < |b|
      ensures b[i] < b[j]
    {
      assert s[|a| + 1 + i] == b[i] && s[|a| + 1 + j] == b[j];
    }
  }

  lemma IncreasingJoin(a: seq<int>, k: int, b: seq<int>)
    requires Increasing(a) && Increasing(b)
    requires (forall x :: x in a ==> x < k) && (forall x :: x in b ==> k < x)
    ensures Increasing(a + [k] + b)
  {
    var s := a + [k] + b;
    forall i, j | 0 <= i < j < |s|
      ensures s[i] < s[j]
    {
      if j < |a| {
        assert s[i] == a[i] && s[j] == a[j];
      } else if j == |a| {
        assert s[i] == a[i] && a[i] in a;
      } else {
        assert s[j] == b[j - |a| - 1] && b[j - |a| - 1] in b;
        if i < |a| {
          assert s[i] == a[i] && a[i] in a;
        } else if i > |a| {
          assert s[i] == b[i - |a| - 1];
        }
      }
    }
  }

  /** The node-by-node search-tree property is exactly an ascending in-order traversal. */
  lemma {:induction false} SearchTreeIffIncreasing(t: Tree)
    ensures SearchTree(t) <==> Increasing(InOrder(t))
  {
    match t
    case Nil =>
    case Node(_, l, k, r) =>
      SearchTreeIffIncreasing(l);
      SearchTreeIffIncreasing(r);
      IncreasingAround(InOrder(l), k, InOrder(r));
  }

  lemma IncreasingTail(s: seq<int>)
    requires s != [] && Increasing(s)
    ensures Increasing(s[1..]) && forall y :: y in s[1..] ==> s[0] < y
  {
    assert s == [s[0]] + s[1..];
    IncreasingCons(s[0], s[1..]);
  }

  // ------------------------------------------------------------ lemmas on the reference operations

  /** Sorted insertion keeps the sequence ascending and grows it by one exactly when `k` was absent. */
  lemma {:induction false} SortedInsertIncreasing(s: seq<int>, k: int)
    requires Increasing(s)
    ensures Increasing(SortedInsert(s, k))
    ensures |SortedInsert(s, k)| == if k in s then |s| else |s| + 1
  {
    if s == [] {
    } else if k < s[0] {
      IncreasingTail(s);
      IncreasingCons(k, s);
    } else if k == s[0] {
    } else {
      IncreasingTail(s);
      SortedInsertIncreasing(s[1..], k);
      IncreasingCons(s[0], SortedInsert(s[1..], k));
      assert s == [s[0]] + s[1..];
    }
  }

  /** Inserting a key that is already present changes nothing. */
  lemma {:induction false} SortedInsertPresent(s: seq<int>, k: int)
    requires Increasing(s) && k in s
    ensures SortedInsert(s, k) == s
  {
    IncreasingTail(s);
    if k != s[0] {
      assert s == [s[0]] + s[1..];
      assert k in s[1..];
      SortedInsertPresent(s[1..], k);
    }
  }

  /** Inserting a key that lies strictly between the two halves puts it between them. */
  lemma {:induction false} SortedInsertBetween(a: seq<int>, k: int, b: seq<int>)
    requires forall x :: x in a ==> x < k
    requires forall x :: x in b ==> k < x
    ensures SortedInsert(a + b, k) == a + [k] + b
    decreases |a|
  {
    if a == [] {
      assert a + b == b;
      if b != [] {
        assert b[0] in b;
      }
    } else {
      assert a[0] in a;
      assert (a + b)[0] == a[0];
      assert (a + b)[1..] == a[1..] + b;
      forall x | x in a[1..]
        ensures x < k
      {
        assert x in a;
      }
      SortedInsertBetween(a[1..], k, b);
      assert a + [k] + b == [a[0]] + (a[1..] + [k] + b);
    }
  }

  /** Removing a key that occurs once, between two halves that do not hold it. */
  lemma {:induction false} RemoveBetween(a: seq<int>, k: int, b: seq<int>)
    requires k !in a && k !in b
    ensures Remove(a + [k] + b, k) == a + b
    decreases |a|
  {
    if a == [] {
      assert a + [k] + b == [k] + b;
      assert ([k] + b)[1..] == b;
      RemoveAbsent(b, k);
    } else {
      assert (a + [k] + b)[0] == a[0];
      assert (a + [k] + b)[1..] == a[1..] + [k] + b;
      assert a[0] in a;
      RemoveBetween(a[1..], k, b);
      assert a + b == [a[0]] + (a[1..] + b);
    }
  }

  lemma {:induction false} RemoveAbsent(s: seq<int>, k: int)
    requires k !in s
    ensures Remove(s, k) == s
  {
    if s != [] {
      assert s[0] in s;
      assert forall x :: x in s[1..] ==> x in s;
      RemoveAbsent(s[1..], k);
      assert s == [s[0]] + s[1..];
    }
  }

  /** Removal keeps an ascending sequence ascending and shrinks it by one exactly when `k` was present. */
  lemma {:induction false} RemoveIncreasing(s: seq<int>, k: int)
    requires Increasing(s)
    ensures Increasing(Remove(s, k))
    ensures |Remove(s, k)| == if k in s then |s| - 1 else |s|
  {
    if s != [] {
      IncreasingTail(s);
      RemoveIncreasing(s[1..], k);
      assert s == [s[0]] + s[1..];
      if s[0] == k {
        assert k !in s[1..];
      } else {
        assert k in s <==> k in s[1..];
        assert forall y :: y in Remove(s[1..], k) ==> s[0] < y;
        IncreasingCons(s[0], Remove(s[1..], k));
      }
    }
  }
}
