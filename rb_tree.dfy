/**
 * The public face of `dp::tree::rb_tree` with `int` keys: the `_root` field
 * and the operations that reassign it. Nodes are values here, so the node
 * the code allocates with `new` and links in is the subtree the engine
 * methods return.
 */
module RedBlackTree {
  import opened TreeOps
  import opened RbSpec
  import opened RbInsert
  import opened RbDelete

  class RbTree {
    var root: Tree

    /** What every public operation keeps: `_root` is a valid red-black tree. */
    predicate Valid()
      reads this
    {
      IsRB(root)
    }

    /** The keys in order, as `traverse_in_order` from the root visits them. */
    function Keys(): seq<int>
      reads this
    {
      InOrder(root)
    }

    constructor()
      ensures root == Nil && Valid()
    {
      root := Nil;
    }

    method Clear()
      modifies this
      ensures root == Nil && Valid()
    {
      root := Nil;
    }

    /** `height()`: small relative to the number of keys on a valid tree. */
    function Height(): (h: nat)
      reads this
      ensures h == 0 <==> root.Nil?
      ensures Valid() ==> Pow2(h / 2) <= |Keys()| + 1
    {
      CountIsInOrderLength(root);
      if IsRB(root) then
        RbHeightBound(root);
        TreeOps.Height(root)
      else
        TreeOps.Height(root)
    }

    /** `count()`: the number of keys. */
    function Count(): (n: nat)
      reads this
      ensures n == |Keys()|
    {
      CountIsInOrderLength(root);
      TreeOps.Count(root)
    }

    /**
     * `insert`: an empty tree gets a black root holding `k`; otherwise
     * `insert_rbt` runs and its status is dropped, so a key already present
     * leaves the tree as it was.
     */
    method Insert(k: int)
      requires Valid()
      modifies this
      ensures Valid()
      ensures Keys() == SortedInsert(old(Keys()), k)
      ensures k in old(Keys()) ==> root == old(root)
      ensures Count() == if k in old(Keys()) then old(Count()) else old(Count()) + 1
    {
      SearchTreeIffIncreasing(root);
      SortedInsertIncreasing(InOrder(root), k);
      if root.Nil? {
        root := Node(Black, Nil, k, Nil);
        return;
      }
      var _, r := InsertRbt(root, k);
      root := r;
    }

    /** `emplace`: the key is built in place from the arguments, then inserted as by `insert`. */
    method Emplace(k: int)
      requires Valid()
      modifies this
      ensures Valid()
      ensures Keys() == SortedInsert(old(Keys()), k)
      ensures k in old(Keys()) ==> root == old(root)
      ensures Count() == if k in old(Keys()) then old(Count()) else old(Count()) + 1
    {
      Insert(k);
    }

    /**
     * `erase`: false and no change on an empty tree or an absent key;
     * otherwise true, and exactly that key is gone.
     */
    method Erase(k: int) returns (found: bool)
      requires Valid()
      modifies this
      ensures Valid()
      ensures found <==> k in old(Keys())
      ensures !found ==> root == old(root)
      ensures Keys() == Remove(old(Keys()), k)
      ensures Count() == if found then old(Count()) - 1 else old(Count())
    {
      SearchTreeIffIncreasing(root);
      RemoveIncreasing(InOrder(root), k);
      if root.Nil? {
        return false;
      }
      var status, r := DeleteRbt(root, k);
      root := r;
      found := status == 0;
    }
  }

  /**
   * The tree test: keys 1 to 7 inserted in order, then 4 erased, leaves the
   * other six in order.
   */
  method InsertSevenEraseFour() returns (keys: seq<int>, count: nat, erased: bool)
    ensures keys == [1, 2, 3, 5, 6, 7] && count == 6 && erased
  {
    var t := InsertUpTo(7);
    UpToSeven();
    EraseFourKeys();
    ghost var before := t.Keys();
    assert before == [1, 2, 3, 4, 5, 6, 7];
    erased := t.Erase(4);
    keys := t.Keys();
    assert keys == Remove(before, 4);
    count := t.Count();
  }

  /** Inserting a key larger than all others appends it. */
  lemma SortedInsertAfter(s: seq<int>, k: int)
    requires forall x :: x in s ==> x < k
    ensures SortedInsert(s, k) == s + [k]
  {
    SortedInsertBetween(s, k, []);
    assert s + [] == s;
  }

  lemma EraseFourKeys()
    ensures 4 in [1, 2, 3, 4, 5, 6, 7]
    ensures Remove([1, 2, 3, 4, 5, 6, 7], 4) == [1, 2, 3, 5, 6, 7]
  {
    RemoveBetween([1, 2, 3], 4, [5, 6, 7]);
    assert [1, 2, 3] + [4] + [5, 6, 7] == [1, 2, 3, 4, 5, 6, 7];
  }

  /** A fresh tree after `insert(1)`, ..., `insert(n)`. */
  method InsertUpTo(n: nat) returns (t: RbTree)
    ensures fresh(t) && t.Valid() && t.Keys() == UpTo(n)
  {
    t := new RbTree();
    var i := 1;
    while i <= n
      invariant 1 <= i <= n + 1
      invariant fresh(t) && t.Valid() && t.Keys() == UpTo(i - 1)
    {
      UpToBelow(i - 1);
      SortedInsertAfter(t.Keys(), i);
      t.Insert(i);
      i := i + 1;
    }
  }

  /** The keys 1 to `n` in order. */
  function UpTo(n: nat): seq<int>
  {
    if n == 0 then [] else UpTo(n - 1) + [n]
  }

  lemma {:induction false} UpToBelow(n: nat)
    ensures forall x :: x in UpTo(n) ==> x <= n
  {
    if n > 0 {
      UpToBelow(n - 1);
    }
  }

  lemma UpToSeven()
    ensures UpTo(7) == [1, 2, 3, 4, 5, 6, 7]
  {
  }
}
