/**
 * `dp::debug::type_name` and `short_type_name`. The compiler's signature
 * string for a function template (`__PRETTY_FUNCTION__`) is an input: the
 * wrapped name of the type asked for, and the wrapped name of a probe type
 * whose own name is known, from which the prefix and suffix lengths around
 * every type name are measured.
 */
module TypeNames {
  import opened Optional
  import opened StringView

  /**
   * `detail::type_name`: the slice of `wrapped` after the probe's prefix,
   * `wrapped.length() - prefix - suffix` long in `size_t` arithmetic. None
   * when the probe's name does not occur in its wrapped name or the prefix
   * is longer than `wrapped`: `substr` then throws, which stops the
   * constant evaluation.
   */
  function DetailTypeName(wrapped: string, probeWrapped: string, probeName: string): (r: Option<string>)
    requires |wrapped| < SIZE_MOD && |probeWrapped| < SIZE_MOD
    ensures r.Some? ==> Find(probeWrapped, probeName).Some?
    ensures r.Some? ==> var p := Find(probeWrapped, probeName).value;
                        p + |r.value| <= |wrapped| && r.value == wrapped[p..p + |r.value|]
  {
    match Find(probeWrapped, probeName)
    case None => None
    case Some(prefix) =>
      var suffix := SizeSub(SizeSub(|probeWrapped|, prefix), |probeName|);
      var length := SizeSub(SizeSub(|wrapped|, prefix), suffix);
      if prefix > |wrapped| then None else Some(Substr(wrapped, prefix, length))
  }

  /**
   * When the compiler writes every type name between the same prefix and
   * suffix, and the probe's name first occurs right after that prefix, the
   * slice is exactly the type's name.
   */
  lemma DetailTypeNameRecovers(pre: string, suf: string, name: string, probeName: string)
    requires |pre + name + suf| < SIZE_MOD && |pre + probeName + suf| < SIZE_MOD
    requires Find(pre + probeName + suf, probeName) == Some(|pre|)
    ensures DetailTypeName(pre + name + suf, pre + probeName + suf, probeName) == Some(name)
  {
    var w := pre + name + suf;
    assert w[|pre|..|pre| + |name|] == name;
  }

  /** Removes `prefix` only where `find` reports it at position 0. */
  function StripAtStart(s: string, prefix: string): (r: string)
    ensures prefix <= s ==> r == s[|prefix|..]
    ensures !(prefix <= s) ==> r == s
  {
    FindAtZero(s, prefix);
    if Find(s, prefix) == Some(0) then s[|prefix|..] else s
  }

  /** `type_name`: "struct ", then "class ", then "union ", each removed only at the start. */
  function TypeName(r: string): (name: string)
    ensures |name| <= |r| && name == r[|r| - |name|..]
  {
    StripAtStart(StripAtStart(StripAtStart(r, "struct "), "class "), "union ")
  }

  /** Only a keyword at the very start is removed. */
  lemma TypeNameStripsLeading()
    ensures TypeName("struct Point") == "Point"
  {
    assert "struct " <= "struct Point";
    var rest := "Point";
    assert "struct Point"[7..] == rest;
    assert rest[0] != "class "[0] && rest[0] != "union "[0];
  }

  /** A keyword after the one removed stays: "class struct X" keeps "struct ". */
  lemma TypeNameKeepsSecondKeyword()
    ensures TypeName("class struct X") == "struct X"
  {
    assert "class struct X"[0] != "struct "[0];
    assert "class " <= "class struct X";
    var rest := "struct X";
    assert "class struct X"[6..] == rest;
    assert rest[0] != "union "[0];
  }

  /** Where the short name starts: just after the last "::", or at 0. */
  function ShortStart(value: string): (k: nat)
    ensures k <= |value|
    ensures RFind(value, "::").None? ==> k == 0
    ensures RFind(value, "::").Some? ==> k == RFind(value, "::").value + 2
  {
    match RFind(value, "::")
    case None => 0
    case Some(e) =>
      assert !OccursAt(value, "::", e + 2);
      e + 2
  }

  /** `short_type_name`, as intended: the part of the view after the last "::". */
  function ShortTypeName(value: string): (r: string)
    ensures |r| <= |value| && r == value[|value| - |r|..]
    ensures Find(r, "::") == None
    ensures RFind(value, "::").None? ==> r == value
    ensures RFind(value, "::").Some? ==> r == value[RFind(value, "::").value + 2..]
  {
    var k := ShortStart(value);
    var r := value[k..];
    forall i: nat | OccursAt(r, "::", i)
      ensures false
    {
      assert value[k + i..k + i + 2] == r[i..i + 2];
      assert OccursAt(value, "::", k + i);
    }
    r
  }

  /** The first NUL character at or after `from`; `buf` ends with one. */
  function NulFrom(buf: string, from: nat): (e: nat)
    requires from < |buf| && buf[|buf| - 1] == '\0'
    ensures from <= e < |buf| && buf[e] == '\0'
    ensures forall i :: from <= i < e ==> buf[i] != '\0'
    decreases |buf| - from
  {
    if buf[from] == '\0' then from else NulFrom(buf, from + 1)
  }

  /**
   * `short_type_name` as written: the view `buf[off..off+len]` is cut after
   * its last "::", but the result is rebuilt from a bare `char*`, so it runs
   * on to the next NUL in the underlying NUL-terminated buffer.
   */
  function ShortTypeNameAsWritten(buf: string, off: nat, len: nat): (r: string)
    requires off + len < |buf| && buf[|buf| - 1] == '\0'
    ensures off + ShortStart(buf[off..off + len]) + |r| < |buf|
    ensures r == buf[off + ShortStart(buf[off..off + len])..off + ShortStart(buf[off..off + len]) + |r|]
    ensures '\0' !in r
    ensures buf[off + ShortStart(buf[off..off + len]) + |r|] == '\0'
  {
    var start := off + ShortStart(buf[off..off + len]);
    buf[start..NulFrom(buf, start)]
  }

  /** When the view runs up to the terminator and holds no NUL, the two agree. */
  lemma ShortTypeNameAgrees(buf: string, off: nat, len: nat)
    requires off + len < |buf| && buf[|buf| - 1] == '\0'
    requires buf[off + len] == '\0' && '\0' !in buf[off..off + len]
    ensures ShortTypeNameAsWritten(buf, off, len) == ShortTypeName(buf[off..off + len])
  {
    var value := buf[off..off + len];
    var start := off + ShortStart(value);
    forall i | start <= i < off + len
      ensures buf[i] != '\0'
    {
      assert buf[i] == value[i - off];
    }
  }

  /**
   * GCC writes the type name inside "[with T = ...]": `type_name` is a view
   * that stops before the closing bracket, but `short_type_name` as written
   * keeps it.
   */
  lemma ShortTypeNameKeepsSuffix()
    ensures var buf := "f() [with T = ns::Foo]" + "\0";
            buf[14..21] == "ns::Foo"
            && ShortTypeName(buf[14..21]) == "Foo"
            && ShortTypeNameAsWritten(buf, 14, 7) == "Foo]"
  {
    var buf := "f() [with T = ns::Foo]" + "\0";
    var value := buf[14..21];
    assert value == "ns::Foo";
    assert OccursAt(value, "::", 2);
    assert ShortStart(value) == 4 by {
      assert value[5..7][0] == 'o' && value[4..6][0] == 'F' && value[3..5][1] == 'F';
      assert RFindUpTo(value, "::", 5) == Some(2);
    }
    assert NulFrom(buf, 18) == 22;
  }
}
