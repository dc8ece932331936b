/**
 * The flyweight factories of `tests/dp-flyweight.cc`. A flyweight holds a
 * copy of the shared state it was built from, so a flyweight is modelled by
 * that state. The basic factory keys its table by a string made from the
 * state; the `meta` one keys it by the state's hash value, which is an
 * opaque function here.
 */
module Flyweight {
  import Defs
  import opened StringView

  /** `shared_state`: brand, model and colour of a car. */
  datatype SharedState = SharedState(brand: string, model: string, color: string)

  /** `flyweight_factory::key`: brand, model and colour joined by '_'. */
  function Key(ss: SharedState): (k: string)
    ensures |k| == |ss.brand| + |ss.model| + |ss.color| + 2
    ensures k[..|ss.brand|] == ss.brand && k[|ss.brand|] == '_'
  {
    ss.brand + "_" + ss.model + "_" + ss.color
  }

  /** Brand and model hold no '_'. */
  predicate Unambiguous(ss: SharedState)
  {
    '_' !in ss.brand && '_' !in ss.model
  }

  /** When brand and model hold no '_', two states share a key exactly when they are equal. */
  lemma KeyInjective(a: SharedState, b: SharedState)
    requires Unambiguous(a) && Unambiguous(b)
    ensures Key(a) == Key(b) <==> a == b
  {
    if Key(a) == Key(b) {
      KeySplit(a, b);
    }
  }

  lemma KeySplit(a: SharedState, b: SharedState)
    requires Unambiguous(a) && Unambiguous(b) && Key(a) == Key(b)
    ensures a == b
  {
    assert Key(a) == a.brand + "_" + (a.model + "_" + a.color);
    assert Key(b) == b.brand + "_" + (b.model + "_" + b.color);
    SplitAtUnderscore(a.brand, a.model + "_" + a.color, b.brand, b.model + "_" + b.color);
    SplitAtUnderscore(a.model, a.color, b.model, b.color);
  }

  /** The first '_' separates a field without '_' from the rest. */
  lemma SplitAtUnderscore(x: string, rx: string, y: string, ry: string)
    requires '_' !in x && '_' !in y && x + "_" + rx == y + "_" + ry
    ensures x == y && rx == ry
  {
    var s := x + "_" + rx;
    assert s[..|x|] == x;
    FindCharAt(s, '_', |x|);
    var t := y + "_" + ry;
    assert t[..|y|] == y;
    FindCharAt(t, '_', |y|);
    assert x == s[..|x|] && y == t[..|y|];
    assert rx == s[|x| + 1..] && ry == t[|y| + 1..];
  }

  /** A '_' inside a field lets two different states share a key, and so a flyweight. */
  lemma KeyCollides()
    ensures SharedState("A_B", "C", "D") != SharedState("A", "B_C", "D")
    ensures Key(SharedState("A_B", "C", "D")) == Key(SharedState("A", "B_C", "D"))
  {
  }

  /** The keys some states have under `key`. */
  function KeysOf<K>(key: SharedState -> K, states: seq<SharedState>): set<K>
  {
    set i | 0 <= i < |states| :: key(states[i])
  }

  /**
   * The table after inserting each state under its key in turn: `insert`
   * and `emplace` both keep the first entry of a key.
   */
  function Table<K>(key: SharedState -> K, states: seq<SharedState>): (t: map<K, SharedState>)
    ensures t.Keys == KeysOf(key, states)
  {
    if states == [] then map[]
    else
      var init := states[..|states| - 1];
      var prev := Table(key, init);
      var ss := states[|states| - 1];
      assert KeysOf(key, states) == KeysOf(key, init) + {key(ss)} by {
        assert forall i :: 0 <= i < |init| ==> init[i] == states[i];
      }
      if key(ss) in prev then prev else prev[key(ss) := ss]
  }

  /** One more state: inserted unless its key is already present. */
  lemma TableSnoc<K>(key: SharedState -> K, states: seq<SharedState>, ss: SharedState)
    ensures Table(key, states + [ss]) == if key(ss) in Table(key, states) then Table(key, states) else Table(key, states)[key(ss) := ss]
  {
    assert (states + [ss])[..|states|] == states;
  }

  /** Each key holds the first state with that key. */
  lemma {:induction false} TableKeepsFirst<K>(key: SharedState -> K, states: seq<SharedState>, i: nat)
    requires i < |states|
    requires forall j :: 0 <= j < i ==> key(states[j]) != key(states[i])
    ensures Table(key, states)[key(states[i])] == states[i]
  {
    var n := |states|;
    if i < n - 1 {
      TableKeepsFirst(key, states[..n - 1], i);
    } else {
      var init := states[..n - 1];
      assert key(states[i]) !in KeysOf(key, init) by {
        forall j | 0 <= j < |init|
          ensures key(init[j]) != key(states[i])
        {
          assert init[j] == states[j];
        }
      }
    }
  }

  /** Every entry is one of the listed states, stored under its own key. */
  lemma {:induction false} TableEntriesListed<K>(key: SharedState -> K, states: seq<SharedState>, k: K)
    requires k in Table(key, states)
    ensures exists i :: 0 <= i < |states| && key(states[i]) == k && Table(key, states)[k] == states[i]
  {
    var n := |states|;
    var init := states[..n - 1];
    if k in Table(key, init) {
      TableEntriesListed(key, init, k);
      var i :| 0 <= i < |init| && key(init[i]) == k && Table(key, init)[k] == init[i];
      assert states[i] == init[i];
    } else {
      assert key(states[n - 1]) == k;
    }
  }

  class FlyweightFactory {
    var flyweights: map<string, SharedState>

    /** The constructor inserts one flyweight per listed state. */
    constructor(lists: seq<SharedState>)
      ensures flyweights == Table(Key, lists)
    {
      flyweights := map[];
      new;
      for i := 0 to |lists|
        invariant flyweights == Table(Key, lists[..i])
      {
        var ss := lists[i];
        assert lists[..i + 1] == lists[..i] + [ss];
        TableSnoc(Key, lists[..i], ss);
        if Key(ss) !in flyweights {
          flyweights := flyweights[Key(ss) := ss];
        }
      }
      assert lists[..|lists|] == lists;
    }

    /**
     * `get`: a key already present leaves the table as it is and returns
     * its flyweight; a new key adds exactly one flyweight, built from `ss`.
     */
    method Get(ss: SharedState) returns (f: SharedState)
      modifies this
      ensures Key(ss) in old(flyweights) ==> flyweights == old(flyweights) && f == old(flyweights)[Key(ss)]
      ensures Key(ss) !in old(flyweights) ==> flyweights == old(flyweights)[Key(ss) := ss] && f == ss
      ensures |flyweights| == |old(flyweights)| + (if Key(ss) in old(flyweights) then 0 else 1)
      ensures Key(ss) in flyweights && f == flyweights[Key(ss)]
    {
      var key := Key(ss);
      if key !in flyweights {
        flyweights := flyweights[key := ss];
      }
      f := flyweights[key];
    }

    function Count(): (n: nat)
      reads this
      ensures n == |flyweights|
    {
      |flyweights|
    }
  }

  /** The five cars of the test. */
  function InitialCars(): seq<SharedState>
  {
    [SharedState("Chevrolet", "Camaro2018", "pink"), SharedState("Mercedes Benz", "C300", "black"),
     SharedState("Mercedes Benz", "C500", "red"), SharedState("BMW", "M5", "red"),
     SharedState("BMW", "X6", "white")]
  }

  /** Five different unambiguous states have five different keys. */
  lemma FiveKeys(s: seq<SharedState>)
    requires |s| == 5 && forall i :: 0 <= i < 5 ==> Unambiguous(s[i])
    requires forall i, j :: 0 <= i < j < 5 ==> s[i] != s[j]
    ensures |KeysOf(Key, s)| == 5
  {
    assert KeysOf(Key, s) == {Key(s[0]), Key(s[1]), Key(s[2]), Key(s[3]), Key(s[4])};
    forall i, j | 0 <= i < j < 5
      ensures Key(s[i]) != Key(s[j])
    {
      KeyInjective(s[i], s[j]);
    }
    DistinctFive(Key(s[0]), Key(s[1]), Key(s[2]), Key(s[3]), Key(s[4]));
  }

  lemma DistinctFive<T>(a: T, b: T, c: T, d: T, e: T)
    requires a != b && a != c && a != d && a != e && b != c && b != d && b != e && c != d && c != e && d != e
    ensures |{a, b, c, d, e}| == 5
  {
  }

  /** The five initial keys are distinct, BMW M5 red is among them and BMW X1 red is not. */
  lemma InitialKeys()
    ensures |KeysOf(Key, InitialCars())| == 5
    ensures Key(SharedState("BMW", "M5", "red")) in KeysOf(Key, InitialCars())
    ensures Key(SharedState("BMW", "X1", "red")) !in KeysOf(Key, InitialCars())
  {
    var cars := InitialCars();
    InitialCarsPlain(cars);
    FiveKeys(cars);
    NewCarAbsent(cars, SharedState("BMW", "X1", "red"));
    assert Key(cars[3]) in KeysOf(Key, cars);
  }

  lemma InitialCarsPlain(cars: seq<SharedState>)
    requires cars == InitialCars()
    ensures |cars| == 5 && forall i :: 0 <= i < 5 ==> Unambiguous(cars[i])
    ensures forall i, j :: 0 <= i < j < 5 ==> cars[i] != cars[j]
  {
    forall i | 0 <= i < 5
      ensures Unambiguous(cars[i])
    {
      PlainName(cars[i].brand);
      PlainName(cars[i].model);
    }
    assert cars[1].model[1] == '3' && cars[2].model[1] == '5';
    assert forall i, j :: 0 <= i < j < 5 ==> cars[i].model != cars[j].model;
  }

  lemma PlainName(s: string)
    requires s in {"Chevrolet", "Mercedes Benz", "BMW", "Camaro2018", "C300", "C500", "M5", "X6"}
    ensures '_' !in s
  {
  }

  /** An unambiguous state equal to none of the listed ones has a key none of them has. */
  lemma NewCarAbsent(cars: seq<SharedState>, x: SharedState)
    requires Unambiguous(x) && forall i :: 0 <= i < |cars| ==> Unambiguous(cars[i]) && cars[i] != x
    ensures Key(x) !in KeysOf(Key, cars)
  {
    forall i | 0 <= i < |cars|
      ensures Key(x) != Key(cars[i])
    {
      KeyInjective(x, cars[i]);
    }
  }

  /** `test_flyweight_basic`: five flyweights; BMW M5 red is reused, BMW X1 red makes a sixth. */
  method FlyweightTest() returns (initial: nat, afterReuse: nat, afterNew: nat)
    ensures initial == 5 && afterReuse == 5 && afterNew == 6
  {
    var factory := new FlyweightFactory(InitialCars());
    InitialKeys();
    initial := factory.Count();
    var f1 := factory.Get(SharedState("BMW", "M5", "red"));
    afterReuse := factory.Count();
    var f2 := factory.Get(SharedState("BMW", "X1", "red"));
    afterNew := factory.Count();
  }

  // ------------------------------------------------------------ meta::flyweight_factory

  /**
   * `std::hash<shared_state_impl>`: the brand's hash with the model's and
   * colour's combined in, as a number below 2^64.
   */
  function StateHash(strHash: string -> bv64, ss: SharedState): (h: nat)
    ensures h < 0x1_0000_0000_0000_0000
  {
    Defs.HashAll(strHash(ss.brand), [strHash(ss.model), strHash(ss.color)]) as nat
  }

  class MetaFlyweightFactory {
    /** The hasher of the shared state, `hasher_t`, its `size_t` result as a number. */
    const hasher: SharedState -> nat
    var flyweights: map<nat, SharedState>

    /** The constructor emplaces one flyweight per listed state under its hash; a repeated hash keeps the first. */
    constructor(hasher: SharedState -> nat, args: seq<SharedState>)
      ensures this.hasher == hasher
      ensures flyweights == Table(hasher, args)
    {
      this.hasher := hasher;
      flyweights := map[];
      new;
      for i := 0 to |args|
        invariant flyweights == Table(hasher, args[..i])
      {
        var ss := args[i];
        assert args[..i + 1] == args[..i] + [ss];
        TableSnoc(hasher, args[..i], ss);
        var key := hasher(ss);
        if key !in flyweights {
          flyweights := flyweights[key := ss];
        }
      }
      assert args[..|args|] == args;
    }

    /**
     * `get`: like the basic factory, keyed by the hash; a state whose hash
     * is already present gets the stored flyweight, even one built from a
     * different state.
     */
    method Get(ss: SharedState) returns (f: SharedState)
      modifies this
      ensures hasher(ss) in old(flyweights) ==> flyweights == old(flyweights) && f == old(flyweights)[hasher(ss)]
      ensures hasher(ss) !in old(flyweights) ==> flyweights == old(flyweights)[hasher(ss) := ss] && f == ss
      ensures |flyweights| == |old(flyweights)| + (if hasher(ss) in old(flyweights) then 0 else 1)
      ensures hasher(ss) in flyweights && f == flyweights[hasher(ss)]
    {
      var key := hasher(ss);
      if key !in flyweights {
        flyweights := flyweights[key := ss];
      }
      f := flyweights[key];
    }
  }

  /** The car added second in the test, which none of the initial ones equals. */
  function NewCar(): SharedState
  {
    SharedState("BMW", "X1", "red")
  }

  /** No two of `states` have the same hash. */
  predicate DistinctHashes(strHash: string -> bv64, states: seq<SharedState>)
  {
    forall i, j :: 0 <= i < j < |states| ==> StateHash(strHash, states[i]) != StateHash(strHash, states[j])
  }

  /**
   * `test_flyweight_meta`: the factory keyed by `StateHash`. Reusing BMW M5
   * red never adds a flyweight; BMW X1 red adds one exactly when its hash
   * is new; and when the six hashes differ the counts are 5, 5 and 6.
   */
  method MetaFlyweightTest(strHash: string -> bv64) returns (initial: nat, afterReuse: nat, afterNew: nat)
    ensures afterReuse == initial
    ensures afterNew == initial || afterNew == initial + 1
    ensures afterNew == initial + 1 <==> forall i :: 0 <= i < 5 ==> StateHash(strHash, InitialCars()[i]) != StateHash(strHash, NewCar())
    ensures DistinctHashes(strHash, InitialCars() + [NewCar()]) ==> initial == 5 && afterReuse == 5 && afterNew == 6
  {
    var cars := InitialCars();
    var hasher := (ss: SharedState) => StateHash(strHash, ss);
    var factory := new MetaFlyweightFactory(hasher, cars);
    initial := |factory.flyweights|;
    assert hasher(cars[3]) in KeysOf(hasher, cars);
    var f1 := factory.Get(SharedState("BMW", "M5", "red"));
    afterReuse := |factory.flyweights|;
    NewHashAbsent(hasher, cars, NewCar());
    var f2 := factory.Get(NewCar());
    afterNew := |factory.flyweights|;
    if DistinctHashes(strHash, cars + [NewCar()]) {
      DistinctHashesFive(strHash, cars, NewCar());
    }
  }

  /** A state's hash is new exactly when no listed state has it. */
  lemma NewHashAbsent(hasher: SharedState -> nat, states: seq<SharedState>, x: SharedState)
    ensures hasher(x) !in KeysOf(hasher, states) <==> forall i :: 0 <= i < |states| ==> hasher(states[i]) != hasher(x)
  {
  }

  /** Six states with different hashes: the first five have five hashes, and the sixth is none of them. */
  lemma DistinctHashesFive(strHash: string -> bv64, cars: seq<SharedState>, x: SharedState)
    requires |cars| == 5 && DistinctHashes(strHash, cars + [x])
    ensures |KeysOf((ss: SharedState) => StateHash(strHash, ss), cars)| == 5
    ensures forall i :: 0 <= i < 5 ==> StateHash(strHash, cars[i]) != StateHash(strHash, x)
  {
    var all := cars + [x];
    var h := (ss: SharedState) => StateHash(strHash, ss);
    assert forall i :: 0 <= i < 5 ==> all[i] == cars[i];
    assert all[5] == x;
    assert KeysOf(h, cars) == {h(cars[0]), h(cars[1]), h(cars[2]), h(cars[3]), h(cars[4])};
    DistinctFive(h(cars[0]), h(cars[1]), h(cars[2]), h(cars[3]), h(cars[4]));
  }
}
