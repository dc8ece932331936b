/**
 * `dp-util.hh`: the identifiers derived from type names (`id_name`,
 * `__enum_id_gen`) and `factory::create`, which picks a product by
 * identifier. The type name is an arbitrary string here.
 */
module Util {
  import opened Optional
  import opened StringView

  /** `id_name` starts just after the first "()::", or at 0. */
  function IdStart(v: string): (b: nat)
    ensures b <= |v|
  {
    match Find(v, "()::")
    case None => 0
    case Some(i) => i + 4
  }

  /** `id_name` ends at the first '<', or at the end. */
  function IdEnd(v: string): (e: nat)
    ensures e <= |v|
    ensures '<' !in v[..e]
    ensures e < |v| ==> v[e] == '<'
  {
    match Find(v, "<")
    case None =>
      assert forall i :: 0 <= i < |v| ==> !OccursAt(v, "<", i) && v[i..i + 1] == [v[i]];
      |v|
    case Some(i) =>
      assert forall j :: 0 <= j < i ==> !OccursAt(v, "<", j) && v[j..j + 1] == [v[j]];
      assert v[i..i + 1] == "<";
      i
  }

  /**
   * `id_name`: `v.substr(begin1, end - begin1)` in `size_t` arithmetic.
   * When a '<' comes before `begin1` the length wraps to a huge value and
   * `substr` clamps it, so the rest of the name is returned.
   */
  function IdName(v: string): (r: string)
    requires |v| < SIZE_MOD
  {
    Substr(v, IdStart(v), SizeSub(IdEnd(v), IdStart(v)))
  }

  /** The identifier is the text between the "()::" and the first '<', or the rest of the name when the '<' comes first. */
  lemma IdNameSlice(v: string)
    requires |v| < SIZE_MOD
    ensures IdStart(v) <= IdEnd(v) ==> IdName(v) == v[IdStart(v)..IdEnd(v)]
    ensures IdEnd(v) < IdStart(v) ==> IdName(v) == v[IdStart(v)..]
    ensures '<' !in v ==> IdName(v) == v[IdStart(v)..]
  {
  }

  /** A class local to a function, instantiated: "f()::Shape<int>" names "Shape". */
  lemma IdNameLocalClass()
    ensures IdName("f()::Shape<int>") == "Shape"
  {
    var a := "f()::Shape<int>";
    LocalClassBounds(a);
    IdNameSlice(a);
    assert a[5..10] == "Shape";
  }

  lemma LocalClassBounds(a: string)
    requires a == "f()::Shape<int>"
    ensures IdStart(a) == 5 && IdEnd(a) == 10
  {
    assert !OccursAt(a, "()::", 0) by { assert a[0] == 'f' && a[0..4][0] == a[0] && "()::"[0] == '('; }
    assert a[1..5] == "()::";
    FindFirstAt(a, "()::", 1);
    assert a[..10] == "f()::Shape";
    FindCharAt(a, '<', 10);
  }

  /**
   * A '<' before the "()::": the length `end - begin1` wraps and `substr`
   * clamps it, so "vec<f()::X>" yields the rest of the name, "X>".
   */
  lemma IdNameWraps()
    ensures IdName("vec<f()::X>") == "X>"
  {
    var b := "vec<f()::X>";
    WrapsBounds(b);
    IdNameSlice(b);
    assert b[9..] == "X>";
  }

  lemma WrapsBounds(b: string)
    requires b == "vec<f()::X>"
    ensures IdStart(b) == 9 && IdEnd(b) == 3
  {
    assert b[..3] == "vec";
    FindCharAt(b, '<', 3);
    forall j | 0 <= j < 5
      ensures !OccursAt(b, "()::", j)
    {
      assert b[j..j + 4][0] == b[j] != '(';
    }
    FindFirstAt(b, "()::", 5);
  }

  /** `__enum_id_gen`: the type name up to its first '<'. */
  function EnumId(v: string): (r: string)
    ensures r <= v && '<' !in r
    ensures |r| < |v| ==> v[|r|] == '<'
  {
    v[..IdEnd(v)]
  }

  // ------------------------------------------------------------ factory

  /** One entry of `named_products`: a product's identifier and what its `gen` builds. */
  datatype Product<P> = Product(id: string, made: P)

  /**
   * `create`: a fold over the products, left to right, that replaces the
   * result whenever a product's identifier equals `id`.
   */
  function Create<P>(products: seq<Product<P>>, id: string): Option<P>
  {
    CreateFold(products, id, None)
  }

  function CreateFold<P>(products: seq<Product<P>>, id: string, result: Option<P>): Option<P>
    decreases |products|
  {
    if products == [] then result
    else CreateFold(products[1..], id, if products[0].id == id then Some(products[0].made) else result)
  }

  /** The last product whose identifier equals `id`. */
  predicate LastMatch<P>(products: seq<Product<P>>, id: string, i: nat)
  {
    i < |products| && products[i].id == id
    && forall j :: i < j < |products| ==> products[j].id != id
  }

  /** The fold leaves the last match's product, or what it started with when nothing matches. */
  lemma {:induction false} CreateFoldLast<P>(products: seq<Product<P>>, id: string, result: Option<P>)
    ensures (forall j :: 0 <= j < |products| ==> products[j].id != id) ==> CreateFold(products, id, result) == result
    ensures forall i: nat :: LastMatch(products, id, i) ==> CreateFold(products, id, result) == Some(products[i].made)
    decreases |products|
  {
    if products != [] {
      var next := if products[0].id == id then Some(products[0].made) else result;
      CreateFoldLast(products[1..], id, next);
      forall i: nat | LastMatch(products, id, i)
        ensures CreateFold(products, id, result) == Some(products[i].made)
      {
        if i > 0 {
          assert LastMatch(products[1..], id, i - 1);
        } else {
          assert forall j :: 0 <= j < |products| - 1 ==> products[1..][j] == products[j + 1];
        }
      }
      if forall j :: 0 <= j < |products| ==> products[j].id != id {
        assert forall j :: 0 <= j < |products| - 1 ==> products[1..][j] == products[j + 1];
      }
    }
  }

  /** `create` gives an empty pointer exactly when no product has the identifier, and otherwise the last match's product. */
  lemma CreateSelects<P>(products: seq<Product<P>>, id: string)
    ensures Create(products, id).None? <==> forall j :: 0 <= j < |products| ==> products[j].id != id
    ensures forall i: nat :: LastMatch(products, id, i) ==> Create(products, id) == Some(products[i].made)
  {
    CreateFoldLast(products, id, None);
    if exists j :: 0 <= j < |products| && products[j].id == id {
      var j :| 0 <= j < |products| && products[j].id == id;
      var i := LastFrom(products, id, j);
      assert LastMatch(products, id, i);
    }
  }

  /** Some match exists at or after `j` that no later one follows. */
  lemma {:induction false} LastFromExists<P>(products: seq<Product<P>>, id: string, j: nat)
    requires j < |products| && products[j].id == id
    ensures exists i: nat :: j <= i && LastMatch(products, id, i)
    decreases |products| - j
  {
    if exists k :: j < k < |products| && products[k].id == id {
      var k :| j < k < |products| && products[k].id == id;
      LastFromExists(products, id, k);
    } else {
      assert LastMatch(products, id, j);
    }
  }

  function LastFrom<P>(products: seq<Product<P>>, id: string, j: nat): (i: nat)
    requires j < |products| && products[j].id == id
    ensures LastMatch(products, id, i)
  {
    LastFromExists(products, id, j);
    var i: nat :| j <= i && LastMatch(products, id, i);
    i
  }
}
