/** Small value types shared by the models of the pager, the file header
    and the directory. */
module Common {

  datatype Option<T> = None | Some(value: T)

  /** The outcome of an operation whose source either returns a value or
      stops at a failed ASSERT; the error says which check failed. */
  datatype Result<T, E> = Ok(value: T) | Err(error: E)

  /** The 32-bit signed integers of the simulated machine's registers. */
  newtype int32 = x: int | -0x8000_0000 <= x < 0x8000_0000

  /** C's `(unsigned) x` for a 32-bit int: the value modulo 2^32. */
  function Unsigned(x: int32): (u: nat)
    ensures u < 0x1_0000_0000
    ensures x >= 0 ==> u == x as int
    ensures x < 0 ==> u == x as int + 0x1_0000_0000
  {
    (x as int) % 0x1_0000_0000
  }

  /** C's integer division and remainder on `int`, which truncate toward zero. */
  function CDiv(n: int, d: int): (q: int)
    requires d > 0
    ensures n >= 0 ==> q >= 0 && 0 <= n - q * d < d
    ensures n < 0 ==> q <= 0 && -d < n - q * d <= 0
  {
    if n >= 0 then n / d else -((-n) / d)
  }

  function CMod(n: int, d: int): (r: int)
    requires d > 0
    ensures n == CDiv(n, d) * d + r
    ensures n >= 0 ==> 0 <= r < d
    ensures n < 0 ==> -d < r <= 0
  {
    n - CDiv(n, d) * d
  }

  /** Nachos' divRoundUp(n, s): `n / s` rounded up when `n % s > 0` (C operators). */
  function DivRoundUp(n: int, s: int): (q: int)
    requires s > 0
    ensures n >= 0 ==> (q - 1) * s < n <= q * s || (n == 0 && q == 0)
    ensures n <= 0 ==> q <= 0
  {
    CDiv(n, s) + (if CMod(n, s) > 0 then 1 else 0)
  }

  /** No element of `s` occurs twice. */
  predicate Distinct<T(==)>(s: seq<T>) {
    forall i, j :: 0 <= i < j < |s| ==> s[i] != s[j]
  }

  /** The elements of `s`, as a set. */
  function Elements<T>(s: seq<T>): set<T> {
    set x | x in s
  }

  /** A sequence without repeats has as many distinct elements as entries. */
  lemma {:induction false} DistinctCard<T>(s: seq<T>)
    requires Distinct(s)
    ensures |Elements(s)| == |s|
  {
    if s != [] {
      var init := s[..|s| - 1];
      assert Distinct(init);
      DistinctCard(init);
      assert s[|s| - 1] !in init;
      assert Elements(s) == Elements(init) + {s[|s| - 1]};
    }
  }

  /** A subset as large as its superset is the whole superset. */
  lemma SubsetOfSameSize<T>(a: set<T>, b: set<T>)
    requires a <= b && |a| == |b|
    ensures a == b
  {
    assert |b - a| == |b| - |a|;
  }

  /** Adjacent slices make up the slice they cover. */
  lemma ElementsSplit<T>(s: seq<T>, a: int, b: int, c: int)
    requires 0 <= a <= b <= c <= |s|
    ensures Elements(s[a..b]) + Elements(s[b..c]) == Elements(s[a..c])
  {
    assert s[a..c] == s[a..b] + s[b..c];
  }

  /** Disjoint stretches of a sequence without repeats share no element. */
  lemma DistinctSlicesApart<T>(s: seq<T>, a: int, b: int, c: int, d: int)
    requires Distinct(s) && 0 <= a <= b <= |s| && 0 <= c <= d <= |s| && (b <= c || d <= a)
    ensures Elements(s[a..b]) !! Elements(s[c..d])
  {
    forall i, j | a <= i < b && c <= j < d ensures s[i] != s[j] {
      assert i != j;
    }
  }

  /** When `s + t` starts `u`, entry `k` of `t` is entry |s| + k of `u`. */
  lemma AppendedPart<T>(s: seq<T>, t: seq<T>, u: seq<T>)
    requires |s| + |t| <= |u| && s + t == u[..|s| + |t|]
    ensures forall k :: 0 <= k < |t| ==> t[k] == u[|s| + k]
  {
    forall k | 0 <= k < |t| ensures t[k] == u[|s| + k] {
      assert (s + t)[|s| + k] == t[k];
    }
  }

  /** A stretch of a sequence without repeats has none. */
  lemma DistinctSlice<T>(s: seq<T>, a: int, b: int)
    requires Distinct(s) && 0 <= a <= b <= |s|
    ensures Distinct(s[a..b])
  {
    assert forall i :: 0 <= i < b - a ==> s[a..b][i] == s[a + i];
  }
}
