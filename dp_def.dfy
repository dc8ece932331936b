/**
 * `dp-def.hh`: the printer `AWESOME_MAKE_ENUM` generates for an enum, which
 * recovers member names from the stringified member list; the boost-style
 * `std::hash_combine`; and `dp::cross::max`/`min`.
 */
module Defs {
  import opened Optional
  import opened StringView

  // ------------------------------------------------------------ reading an int

  /** `std::isspace` in the "C" locale. */
  predicate IsSpace(c: char)
  {
    c == ' ' || c == '\t' || c == '\n' || c == '\U{000B}' || c == '\U{000C}' || c == '\r'
  }

  predicate IsDigit(c: char)
  {
    '0' <= c <= '9'
  }

  /** How many decimal digits `s` starts with. */
  function DigitRun(s: string): (k: nat)
    ensures k <= |s|
    ensures forall i :: 0 <= i < k ==> IsDigit(s[i])
    ensures k < |s| ==> !IsDigit(s[k])
  {
    if s == [] || !IsDigit(s[0]) then 0 else 1 + DigitRun(s[1..])
  }

  /** The value of a string of decimal digits, most significant first. */
  function DecValue(d: string): (n: nat)
    requires forall i :: 0 <= i < |d| ==> IsDigit(d[i])
  {
    if d == [] then 0
    else
      assert IsDigit(d[|d| - 1]);
      DecValue(d[..|d| - 1]) * 10 + (d[|d| - 1] as int - '0' as int)
  }

  /** The decimal digits of `n`, most significant first, without leading zeros. */
  function ShowNat(n: nat): (d: string)
    ensures |d| > 0 && forall i :: 0 <= i < |d| ==> IsDigit(d[i])
  {
    var digit := ['0' + (n % 10) as char];
    if n < 10 then digit else ShowNat(n / 10) + digit
  }

  /**
   * `std::stringstream(s) >> val` for an `int`: an optional sign, then the
   * longest run of digits. With no digits the extraction fails and writes 0.
   */
  function ReadInt(s: string): int
  {
    var neg := |s| > 0 && s[0] == '-';
    var rest := if |s| > 0 && (s[0] == '-' || s[0] == '+') then s[1..] else s;
    var k := DigitRun(rest);
    if k == 0 then 0
    else if neg then -(DecValue(rest[..k]) as int)
    else DecValue(rest[..k])
  }

  lemma {:induction false} DecValueShow(n: nat)
    ensures DecValue(ShowNat(n)) == n
  {
    var d := ShowNat(n);
    if n >= 10 {
      DecValueShow(n / 10);
      assert d[..|d| - 1] == ShowNat(n / 10);
    }
  }

  /** Reading back a number printed in decimal gives the number, whatever non-digit follows it. */
  lemma ReadIntShow(n: nat, rest: string)
    requires rest == [] || !IsDigit(rest[0])
    ensures ReadInt(ShowNat(n) + rest) == n
  {
    var d := ShowNat(n);
    var s := d + rest;
    assert s[0] == d[0];
    DigitRunPrefix(d, rest);
    assert s[..|d|] == d;
    DecValueShow(n);
  }

  /** The same with a minus sign in front. */
  lemma ReadIntShowNegative(n: nat, rest: string)
    requires rest == [] || !IsDigit(rest[0])
    ensures ReadInt("-" + ShowNat(n) + rest) == -(n as int)
  {
    var d := ShowNat(n);
    var s := "-" + d + rest;
    assert s[1..] == d + rest;
    DigitRunPrefix(d, rest);
    assert (d + rest)[..|d|] == d;
    DecValueShow(n);
  }

  lemma {:induction false} DigitRunPrefix(d: string, rest: string)
    requires forall i :: 0 <= i < |d| ==> IsDigit(d[i])
    requires rest == [] || !IsDigit(rest[0])
    ensures DigitRun(d + rest) == |d|
  {
    if d != [] {
      assert (d + rest)[1..] == d[1..] + rest;
      DigitRunPrefix(d[1..], rest);
    } else {
      assert d + rest == rest;
    }
  }

  // ------------------------------------------------------------ the member list

  /** The member list with every whitespace character dropped. */
  function Stripped(s: string): (r: string)
    ensures |r| <= |s|
    ensures forall i :: 0 <= i < |r| ==> !IsSpace(r[i])
  {
    if s == [] then []
    else Stripped(s[..|s| - 1]) + (if IsSpace(s[|s| - 1]) then [] else [s[|s| - 1]])
  }

  /** Text without whitespace is left as it is. */
  lemma {:induction false} StrippedPlain(s: string)
    requires forall i :: 0 <= i < |s| ==> !IsSpace(s[i])
    ensures Stripped(s) == s
  {
    if s != [] {
      StrippedPlain(s[..|s| - 1]);
      assert s == s[..|s| - 1] + [s[|s| - 1]];
    }
  }

  lemma {:induction false} StrippedAppend(a: string, b: string)
    ensures Stripped(a + b) == Stripped(a) + Stripped(b)
    decreases |b|
  {
    if b == [] {
      assert a + b == a;
    } else {
      assert (a + b)[..|a + b| - 1] == a + b[..|b| - 1];
      StrippedAppend(a, b[..|b| - 1]);
    }
  }

  /** The comma-separated fields of `t`; a text without commas is one field. */
  function Fields(t: string): (f: seq<string>)
    ensures |f| >= 1
  {
    if t == [] then [[]] else AddChar(Fields(t[..|t| - 1]), t[|t| - 1])
  }

  /** One more character: a comma opens a new field, anything else extends the last one. */
  function AddChar(f: seq<string>, c: char): (g: seq<string>)
    requires |f| >= 1
    ensures |g| >= 1
  {
    if c == ',' then f + [[]] else f[..|f| - 1] + [f[|f| - 1] + [c]]
  }

  /** No field holds a comma. */
  lemma {:induction false} FieldsNoComma(t: string)
    ensures forall k :: 0 <= k < |Fields(t)| ==> ',' !in Fields(t)[k]
  {
    if t != [] {
      var s := t[..|t| - 1];
      FieldsNoComma(s);
      AddCharNoComma(Fields(s), t[|t| - 1]);
      assert Fields(t) == AddChar(Fields(s), t[|t| - 1]);
    }
  }

  lemma AddCharNoComma(f: seq<string>, c: char)
    requires |f| >= 1 && forall k :: 0 <= k < |f| ==> ',' !in f[k]
    ensures forall k :: 0 <= k < |AddChar(f, c)| ==> ',' !in AddChar(f, c)[k]
  {
    if c != ',' {
      var g := AddChar(f, c);
      forall k | 0 <= k < |g|
        ensures ',' !in g[k]
      {
        if k < |f| - 1 {
          assert g[k] == f[k];
        } else {
          assert g[k] == f[k] + [c];
        }
      }
    }
  }

  /** The fields written back with commas between them. */
  function Join(f: seq<string>): string
    requires |f| >= 1
  {
    if |f| == 1 then f[0] else Join(f[..|f| - 1]) + [','] + f[|f| - 1]
  }

  /** Splitting and joining again gives back the text. */
  lemma {:induction false} JoinFields(t: string)
    ensures Join(Fields(t)) == t
  {
    if t != [] {
      var s := t[..|t| - 1];
      var f := Fields(s);
      JoinFields(s);
      if t[|t| - 1] != ',' {
        var g := f[..|f| - 1] + [f[|f| - 1] + [t[|t| - 1]]];
        if |f| > 1 {
          assert g[..|g| - 1] == f[..|f| - 1];
        }
        assert t == s + [t[|t| - 1]];
      } else {
        assert (f + [[]])[..|f|] == f;
      }
    }
  }

  lemma StrippedSnoc(s: string, c: char)
    ensures Stripped(s + [c]) == Stripped(s) + (if IsSpace(c) then [] else [c])
  {
    assert (s + [c])[..|s|] == s;
  }

  lemma FieldsSnoc(t: string, c: char)
    ensures Fields(t + [c]) == AddChar(Fields(t), c)
  {
    assert (t + [c])[..|t|] == t;
  }

  /** Text without a comma extends the last field. */
  lemma {:induction false} FieldsAppendPlain(t: string, x: string)
    requires ',' !in x
    ensures Fields(t + x) == ExtendLast(Fields(t), x)
    decreases |x|
  {
    if x == [] {
      assert t + x == t;
      ExtendLastEmpty(Fields(t));
    } else {
      var y := x[..|x| - 1];
      var c := x[|x| - 1];
      assert x == y + [c];
      assert ',' !in y by {
        assert forall a :: a in y ==> a in x;
      }
      FieldsAppendPlain(t, y);
      assert t + x == (t + y) + [c];
      FieldsSnoc(t + y, c);
      AddCharLast(Fields(t), y, c, x);
    }
  }

  /** The fields with `x` added to the last one. */
  function ExtendLast(f: seq<string>, x: string): (g: seq<string>)
    requires |f| >= 1
    ensures |g| == |f| && g[|g| - 1] == f[|f| - 1] + x
  {
    f[..|f| - 1] + [f[|f| - 1] + x]
  }

  lemma ExtendLastEmpty(f: seq<string>)
    requires |f| >= 1
    ensures ExtendLast(f, []) == f
  {
    assert f[|f| - 1] + [] == f[|f| - 1];
  }

  lemma AddCharLast(f: seq<string>, y: string, c: char, x: string)
    requires |f| >= 1 && c != ',' && x == y + [c]
    ensures AddChar(ExtendLast(f, y), c) == ExtendLast(f, x)
  {
    var g := f[..|f| - 1] + [f[|f| - 1] + y];
    assert g[..|g| - 1] == f[..|f| - 1];
    assert f[|f| - 1] + y + [c] == f[|f| - 1] + x;
  }

  /** Joining fields that hold no comma and splitting again gives back the fields. */
  lemma {:induction false} FieldsJoin(f: seq<string>)
    requires |f| >= 1 && forall k :: 0 <= k < |f| ==> ',' !in f[k]
    ensures Fields(Join(f)) == f
  {
    var x := f[|f| - 1];
    if |f| == 1 {
      FieldsAppendPlain([], x);
      assert [] + x == x;
      assert ExtendLast([[]], x) == [x] == f;
    } else {
      var init := f[..|f| - 1];
      assert forall k :: 0 <= k < |init| ==> init[k] == f[k];
      FieldsJoin(init);
      FieldsSnoc(Join(init), ',');
      FieldsAppendPlain(Join(init) + [','], x);
      ExtendLastNew(init, x);
      assert f == init + [x];
    }
  }

  lemma ExtendLastNew(init: seq<string>, x: string)
    ensures ExtendLast(init + [[]], x) == init + [x]
  {
    var g := init + [[]];
    assert g[..|g| - 1] == init;
    assert g[|g| - 1] + x == x;
  }

  // ------------------------------------------------------------ numbering

  /** The printer's `val` and `maps` after some members. */
  datatype Numbered = Numbered(val: int, names: map<int, string>)

  /**
   * One member `s0`: "NAME=v" sets `val` to v and names NAME, a plain name
   * takes `val + 1`; `emplace` leaves a value that already has a name alone.
   */
  function Number(st: Numbered, s0: string): (r: Numbered)
    ensures r.val in r.names
    ensures forall v :: v in st.names ==> v in r.names && r.names[v] == st.names[v]
    ensures forall v :: v in r.names && v != r.val ==> v in st.names
    ensures Find(s0, "=").None? ==> r.val == st.val + 1 && (st.val + 1 !in st.names ==> r.names[r.val] == s0)
  {
    var (val, name) :=
      match Find(s0, "=")
      case Some(ix) => (ReadInt(s0[ix + 1..]), s0[..ix])
      case None => (st.val + 1, s0);
    if val in st.names then Numbered(val, st.names) else Numbered(val, st.names[val := name])
  }

  /** `val` starts at -1 and `maps` empty; the members are numbered left to right. */
  function Numbering(members: seq<string>): Numbered
  {
    if members == [] then Numbered(-1, map[])
    else Number(Numbering(members[..|members| - 1]), members[|members| - 1])
  }

  /** What the printer writes for `value`: the enum's name, "::", and the member's name, or "" for a value without one. */
  function EnumText(enumName: string, list: string, value: int): string
  {
    var names := Numbering(Fields(Stripped(list))).names;
    enumName + "::" + (if value in names then names[value] else "")
  }

  /**
   * `operator<<` of `AWESOME_MAKE_ENUM(enumName, list)`: reads `list`
   * character by character, skipping whitespace and numbering a member at
   * each comma and after the last character.
   */
  method PrintEnum(enumName: string, list: string, value: int) returns (out: string)
    ensures out == EnumText(enumName, list, value)
  {
    var val := -1;
    var maps: map<int, string> := map[];
    var temp: string := [];
    ghost var done: seq<string> := [];
    for i := 0 to |list|
      invariant Fields(Stripped(list[..i])) == done + [temp]
      invariant Numbering(done) == Numbered(val, maps)
    {
      var c := list[i];
      ghost var text := Stripped(list[..i]);
      assert list[..i + 1] == list[..i] + [c];
      StrippedSnoc(list[..i], c);
      if IsSpace(c) {
        assert Stripped(list[..i + 1]) == text;
      } else if c == ',' {
        assert Stripped(list[..i + 1]) == text + [c];
        FieldsSnoc(text, c);
        NumberingSnoc(done, temp);
        var st := Number(Numbered(val, maps), temp);
        val, maps := st.val, st.names;
        done, temp := done + [temp], [];
      } else {
        assert Stripped(list[..i + 1]) == text + [c];
        FieldsSnoc(text, c);
        ghost var f := done + [temp];
        assert f[..|f| - 1] == done && f[|f| - 1] == temp;
        temp := temp + [c];
      }
    }
    assert list[..|list|] == list;
    NumberingSnoc(done, temp);
    var st := Number(Numbered(val, maps), temp);
    out := enumName + "::" + (if value in st.names then st.names[value] else "");
  }

  lemma NumberingSnoc(members: seq<string>, s0: string)
    ensures Numbering(members + [s0]) == Number(Numbering(members), s0)
  {
    assert (members + [s0])[..|members|] == members;
  }

  /** Numbering more members keeps every name given so far: `emplace` never overwrites. */
  lemma {:induction false} NumberingKeepsFirst(members: seq<string>, more: seq<string>)
    ensures forall v :: v in Numbering(members).names ==>
              v in Numbering(members + more).names && Numbering(members + more).names[v] == Numbering(members).names[v]
    decreases |more|
  {
    if more == [] {
      assert members + more == members;
    } else {
      var init := more[..|more| - 1];
      NumberingKeepsFirst(members, init);
      assert members + more == (members + init) + [more[|more| - 1]];
      NumberingSnoc(members + init, more[|more| - 1]);
    }
  }

  /** Without any "=", the members are numbered 0, 1, 2, ... in order. */
  lemma {:induction false} ImplicitNumbering(members: seq<string>)
    requires forall k :: 0 <= k < |members| ==> Find(members[k], "=").None?
    ensures Numbering(members).val == |members| - 1
    ensures forall k :: 0 <= k < |members| ==> k in Numbering(members).names && Numbering(members).names[k] == members[k]
    ensures forall v :: v in Numbering(members).names ==> 0 <= v < |members|
  {
    if members != [] {
      var init := members[..|members| - 1];
      ImplicitNumbering(init);
    }
  }

  /** After "NAME=v" the next plain member takes v + 1; NAME is v's name unless v already had one. */
  lemma ExplicitThenImplicit(members: seq<string>, name: string, v: nat, next: string)
    requires '=' !in name && '=' !in next
    ensures var st := Numbering(members + [name + "=" + ShowNat(v)]);
            st.val == v && (v !in Numbering(members).names ==> st.names[v] == name)
    ensures Numbering(members + [name + "=" + ShowNat(v)] + [next]).val == v + 1
  {
    var s0 := name + "=" + ShowNat(v);
    assert s0[..|name|] == name;
    FindCharAt(s0, '=', |name|);
    assert s0[|name| + 1..] == ShowNat(v) + [];
    ReadIntShow(v, []);
    NumberingSnoc(members, s0);
    FindCharAbsent(next, '=');
    NumberingSnoc(members + [s0], next);
  }

  /** Names written the way the preprocessor stringifies a member list: separated by ", ". */
  function Listed(names: seq<string>): string
    requires |names| >= 1
  {
    if |names| == 1 then names[0] else Listed(names[..|names| - 1]) + [',', ' '] + names[|names| - 1]
  }

  /** A name with no whitespace, comma or "=" in it. */
  predicate Plain(name: string)
  {
    forall i :: 0 <= i < |name| ==> !IsSpace(name[i]) && name[i] != ',' && name[i] != '='
  }

  lemma StrippedComma(a: string)
    ensures Stripped(a + [','] + [' ']) == Stripped(a) + [',']
  {
    StrippedSnoc(a + [','], ' ');
    StrippedSnoc(a, ',');
  }

  lemma StrippedSeparated(a: string, x: string)
    requires forall i :: 0 <= i < |x| ==> !IsSpace(x[i])
    ensures Stripped(a + [',', ' '] + x) == Stripped(a) + [','] + x
  {
    SeparatorSplit(a, x);
    StrippedAppend(a + [','] + [' '], x);
    StrippedComma(a);
    StrippedPlain(x);
  }

  lemma SeparatorSplit(a: string, x: string)
    ensures a + [',', ' '] + x == a + [','] + [' '] + x
  {
  }

  lemma {:induction false} StrippedListed(names: seq<string>)
    requires |names| >= 1 && forall k :: 0 <= k < |names| ==> Plain(names[k])
    ensures Stripped(Listed(names)) == Join(names)
  {
    if |names| > 1 {
      var init := names[..|names| - 1];
      var x := names[|names| - 1];
      StrippedListed(init);
      StrippedSeparated(Listed(init), x);
    } else {
      StrippedPlain(names[0]);
    }
  }

  /**
   * An enum declared with plain names and no "=": value k prints the k-th
   * name, and a value past the last member, such as `__COUNT`, prints an
   * empty name.
   */
  lemma PlainEnumText(enumName: string, names: seq<string>, value: int)
    requires |names| >= 1 && forall k :: 0 <= k < |names| ==> Plain(names[k])
    ensures 0 <= value < |names| ==> EnumText(enumName, Listed(names), value) == enumName + "::" + names[value]
    ensures value < 0 || |names| <= value ==> EnumText(enumName, Listed(names), value) == enumName + "::"
  {
    StrippedListed(names);
    forall k | 0 <= k < |names|
      ensures ',' !in names[k] && Find(names[k], "=").None?
    {
      assert forall c :: c in names[k] ==> c != ',' && c != '=';
      FindCharAbsent(names[k], '=');
    }
    FieldsJoin(names);
    ImplicitNumbering(names);
  }

  // ------------------------------------------------------------ hash_combine

  /** One `hash_combine` step on a 64-bit `size_t`; `h` is the element's `std::hash`. */
  function HashStep(seed: bv64, h: bv64): bv64
  {
    seed ^ (0x9e3779b9 + (seed << 6) + (seed >> 2) + h)
  }

  /** The variadic `hash_combine`: one step per argument, left to right. */
  function HashAll(seed: bv64, hs: seq<bv64>): bv64
    decreases |hs|
  {
    if hs == [] then seed else HashAll(HashStep(seed, hs[0]), hs[1..])
  }

  /** Combining a list equals combining its two parts one after the other. */
  lemma {:induction false} HashAllAppend(seed: bv64, a: seq<bv64>, b: seq<bv64>)
    ensures HashAll(seed, a + b) == HashAll(HashAll(seed, a), b)
    decreases |a|
  {
    if a != [] {
      assert (a + b)[1..] == a[1..] + b;
      HashAllAppend(HashStep(seed, a[0]), a[1..], b);
    } else {
      assert a + b == b;
    }
  }

  /** `hash_combine(seed, hs...)`, updating `seed` in place. */
  method HashCombine(seed: bv64, hs: seq<bv64>) returns (out: bv64)
    ensures out == HashAll(seed, hs)
  {
    out := seed;
    for i := 0 to |hs|
      invariant out == HashAll(seed, hs[..i])
    {
      HashAllAppend(seed, hs[..i], [hs[i]]);
      assert hs[..i + 1] == hs[..i] + [hs[i]];
      out := HashStep(out, hs[i]);
    }
    assert hs[..|hs|] == hs;
  }

  // ------------------------------------------------------------ cross::max/min

  /** `cross::max`: `a < b ? b : a`. */
  function Max(a: int, b: int): (r: int)
    ensures r >= a && r >= b && (r == a || r == b)
  {
    if a < b then b else a
  }

  /** `cross::min`: `a < b ? a : b`. */
  function Min(a: int, b: int): (r: int)
    ensures r <= a && r <= b && (r == a || r == b)
  {
    if a < b then a else b
  }
}
