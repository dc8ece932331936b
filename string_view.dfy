/**
 * The few `std::string_view` operations the type-name code uses: `find`,
 * `rfind` and `substr`, with `npos` as `None`. `size_t` arithmetic wraps
 * modulo 2^64.
 */
module StringView {
  import opened Optional

  const SIZE_MOD: int := 0x1_0000_0000_0000_0000

  /** `a - b` on `size_t`. */
  function SizeSub(a: nat, b: nat): (r: nat)
    requires a < SIZE_MOD && b < SIZE_MOD
    ensures r < SIZE_MOD
    ensures b <= a ==> r == a - b
    ensures a < b ==> r == SIZE_MOD + a - b
  {
    (a - b) % SIZE_MOD
  }

  predicate OccursAt(s: string, pat: string, i: nat)
  {
    i + |pat| <= |s| && s[i..i + |pat|] == pat
  }

  /** `s.find(pat, from)`: the first occurrence at or after `from`. */
  function FindFrom(s: string, pat: string, from: nat): (r: Option<nat>)
    ensures r.Some? ==> from <= r.value && OccursAt(s, pat, r.value)
    ensures r.Some? ==> forall i :: from <= i < r.value ==> !OccursAt(s, pat, i)
    ensures r.None? ==> forall i :: from <= i ==> !OccursAt(s, pat, i)
    decreases |s| - from
  {
    if from + |pat| > |s| then None
    else if s[from..from + |pat|] == pat then Some(from)
    else FindFrom(s, pat, from + 1)
  }

  /** `s.find(pat)`. */
  function Find(s: string, pat: string): (r: Option<nat>)
    ensures r.Some? ==> OccursAt(s, pat, r.value)
    ensures r.Some? ==> forall i :: 0 <= i < r.value ==> !OccursAt(s, pat, i)
    ensures r.None? ==> forall i :: 0 <= i ==> !OccursAt(s, pat, i)
  {
    FindFrom(s, pat, 0)
  }

  /** `s.rfind(pat)` over the candidate positions up to `upTo`. */
  function RFindUpTo(s: string, pat: string, upTo: nat): (r: Option<nat>)
    ensures r.Some? ==> r.value <= upTo && OccursAt(s, pat, r.value)
    ensures r.Some? ==> forall i :: r.value < i <= upTo ==> !OccursAt(s, pat, i)
    ensures r.None? ==> forall i :: 0 <= i <= upTo ==> !OccursAt(s, pat, i)
  {
    if OccursAt(s, pat, upTo) then Some(upTo)
    else if upTo == 0 then None
    else RFindUpTo(s, pat, upTo - 1)
  }

  /** `s.rfind(pat)`: the last occurrence. */
  function RFind(s: string, pat: string): (r: Option<nat>)
    ensures r.Some? ==> OccursAt(s, pat, r.value)
    ensures r.Some? ==> forall i :: r.value < i ==> !OccursAt(s, pat, i)
    ensures r.None? ==> forall i :: 0 <= i ==> !OccursAt(s, pat, i)
  {
    if |pat| > |s| then None else RFindUpTo(s, pat, |s| - |pat|)
  }

  /** `s.substr(pos, n)`: at most `n` characters from `pos`; `pos` past the end throws. */
  function Substr(s: string, pos: nat, n: nat): (r: string)
    requires pos <= |s|
    ensures |r| == if n < |s| - pos then n else |s| - pos
    ensures r == s[pos..pos + |r|]
  {
    if n < |s| - pos then s[pos..pos + n] else s[pos..]
  }

  /** `s.find(pat) == 0` holds exactly when `s` starts with `pat`. */
  lemma FindAtZero(s: string, pat: string)
    ensures Find(s, pat) == Some(0) <==> pat <= s
  {
    if pat <= s {
      assert OccursAt(s, pat, 0);
    }
  }

  /** A character that does not occur is not found. */
  lemma FindCharAbsent(s: string, c: char)
    requires c !in s
    ensures Find(s, [c]).None?
  {
    forall i: nat | i < |s|
      ensures !OccursAt(s, [c], i)
    {
      assert s[i..i + 1][0] == s[i];
    }
  }

  /** A pattern is found at its first occurrence. */
  lemma FindFirstAt(s: string, pat: string, i: nat)
    requires OccursAt(s, pat, i) && forall j :: 0 <= j < i ==> !OccursAt(s, pat, j)
    ensures Find(s, pat) == Some(i)
  {
  }

  /** A character is found at its first occurrence. */
  lemma FindCharAt(s: string, c: char, i: nat)
    requires i < |s| && s[i] == c && c !in s[..i]
    ensures Find(s, [c]) == Some(i)
  {
    assert s[i..i + 1] == [c];
    assert OccursAt(s, [c], i);
    forall j | 0 <= j < i
      ensures !OccursAt(s, [c], j)
    {
      assert s[j..j + 1][0] == s[j] == s[..i][j];
    }
  }
}
