/** The free/used bitmap collaborator (BitMap in Nachos): one bit per frame,
    swap slot or disk sector, `true` meaning in use. Only what the core calls
    is modelled: Find, Clear, Test and NumClear. */
module BitMaps {

  /** The lowest clear index at or after `i`, or -1. */
  function FirstClearFrom(bits: seq<bool>, i: nat): (r: int)
    decreases |bits| - i
    ensures r == -1 || (i <= r < |bits| && !bits[r])
  {
    if i >= |bits| then -1
    else if !bits[i] then i
    else FirstClearFrom(bits, i + 1)
  }

  /** The index BitMap::Find hands out: the lowest clear bit, or -1. */
  function FirstClear(bits: seq<bool>): (r: int)
    ensures r == -1 || (0 <= r < |bits| && !bits[r])
  {
    FirstClearFrom(bits, 0)
  }

  lemma {:induction false} FirstClearFromIsLowest(bits: seq<bool>, i: nat)
    requires i <= |bits|
    ensures FirstClearFrom(bits, i) == -1 <==> forall j :: i <= j < |bits| ==> bits[j]
    ensures FirstClearFrom(bits, i) != -1 ==>
              forall j :: i <= j < FirstClearFrom(bits, i) ==> bits[j]
    decreases |bits| - i
  {
    if i < |bits| && bits[i] {
      FirstClearFromIsLowest(bits, i + 1);
    }
  }

  /** Find fails only when every bit is set, and otherwise yields the lowest clear bit. */
  lemma FirstClearIsLowest(bits: seq<bool>)
    ensures FirstClear(bits) == -1 <==> forall j :: 0 <= j < |bits| ==> bits[j]
    ensures FirstClear(bits) != -1 ==> forall j :: 0 <= j < FirstClear(bits) ==> bits[j]
  {
    FirstClearFromIsLowest(bits, 0);
  }

  /** The number of clear bits (BitMap::NumClear). */
  function CountClear(bits: seq<bool>): (n: nat)
    ensures n <= |bits|
  {
    if bits == [] then 0
    else CountClear(bits[..|bits| - 1]) + (if bits[|bits| - 1] then 0 else 1)
  }

  lemma {:induction false} CountClearZero(bits: seq<bool>)
    ensures CountClear(bits) == 0 <==> forall j :: 0 <= j < |bits| ==> bits[j]
  {
    if bits != [] {
      var init := bits[..|bits| - 1];
      CountClearZero(init);
      assert forall j :: 0 <= j < |init| ==> init[j] == bits[j];
    }
  }

  /** Setting one clear bit lowers the count of clear bits by one. */
  lemma {:induction false} CountClearSet(bits: seq<bool>, i: int)
    requires 0 <= i < |bits| && !bits[i]
    ensures CountClear(bits[i := true]) == CountClear(bits) - 1
  {
    var n := |bits| - 1;
    if i == n {
      assert bits[i := true][..n] == bits[..n];
    } else {
      CountClearSet(bits[..n], i);
      assert bits[i := true][..n] == bits[..n][i := true];
    }
  }

  /** When some bit is clear, Find succeeds. */
  lemma FindSucceeds(bits: seq<bool>)
    requires CountClear(bits) > 0
    ensures FirstClear(bits) != -1
  {
    CountClearZero(bits);
    FirstClearIsLowest(bits);
  }

  /** One call of BitMap::Find: the index it returns and the bitmap after.
      It fails only when every bit is set, and otherwise sets the lowest
      clear bit. */
  function Take(bits: seq<bool>): (r: (int, seq<bool>))
    ensures r.0 == -1 ==> r.1 == bits && forall j :: 0 <= j < |bits| ==> bits[j]
    ensures r.0 != -1 ==> 0 <= r.0 < |bits| && !bits[r.0] && r.1 == bits[r.0 := true]
    ensures r.0 == FirstClear(bits) && |r.1| == |bits|
  {
    var f := FirstClear(bits);
    FirstClearIsLowest(bits);
    if f == -1 then (f, bits) else (f, bits[f := true])
  }

  /** Find fails exactly when no bit is clear, and a successful Find leaves
      one clear bit fewer. */
  lemma TakeCounts(bits: seq<bool>)
    ensures Take(bits).0 == -1 <==> CountClear(bits) == 0
    ensures Take(bits).0 != -1 ==> CountClear(Take(bits).1) == CountClear(bits) - 1
  {
    FirstClearIsLowest(bits);
    CountClearZero(bits);
    var f := FirstClear(bits);
    if f != -1 {
      CountClearSet(bits, f);
    }
  }

  /** `bits` with every index of `s` set. */
  function Marked(bits: seq<bool>, s: set<int>): (r: seq<bool>)
    ensures |r| == |bits|
    ensures forall i :: 0 <= i < |bits| ==> r[i] == (bits[i] || i in s)
  {
    seq(|bits|, i requires 0 <= i < |bits| => bits[i] || i in s)
  }

  /** `bits` with every index of `s` cleared. */
  function Unmarked(bits: seq<bool>, s: set<int>): (r: seq<bool>)
    ensures |r| == |bits|
    ensures forall i :: 0 <= i < |bits| ==> r[i] == (bits[i] && i !in s)
  {
    seq(|bits|, i requires 0 <= i < |bits| => bits[i] && i !in s)
  }

  /** Clearing what was set from clear restores the bitmap. */
  lemma UnmarkMarked(bits: seq<bool>, s: set<int>)
    requires forall i :: i in s && 0 <= i < |bits| ==> !bits[i]
    ensures Unmarked(Marked(bits, s), s) == bits
  {
    assert forall i :: 0 <= i < |bits| ==> Unmarked(Marked(bits, s), s)[i] == bits[i];
  }

  /** `n` calls of BitMap::Find in a row: the indices they return, in
      order, and the bitmap they leave. */
  function FindN(bits: seq<bool>, n: nat): (r: (seq<int>, seq<bool>))
    ensures |r.0| == n && |r.1| == |bits|
  {
    if n == 0 then ([], bits)
    else
      var p := FindN(bits, n - 1);
      var t := Take(p.1);
      (p.0 + [t.0], t.1)
  }

  /** With at least `n` clear bits, `n` Finds all succeed: they return `n`
      distinct indices that were clear, set exactly those, and leave `n`
      fewer clear bits. */
  lemma {:induction false} FindNTakesClearBits(bits: seq<bool>, n: nat)
    requires n <= CountClear(bits)
    ensures forall k :: 0 <= k < n ==>
              0 <= FindN(bits, n).0[k] < |bits| && !bits[FindN(bits, n).0[k]]
    ensures forall k, l :: 0 <= k < l < n ==> FindN(bits, n).0[k] != FindN(bits, n).0[l]
    ensures FindN(bits, n).1 == Marked(bits, set x | x in FindN(bits, n).0)
    ensures CountClear(FindN(bits, n).1) == CountClear(bits) - n
  {
    if n == 0 {
      assert Marked(bits, {}) == bits;
    } else {
      FindNTakesClearBits(bits, n - 1);
      FindNStep(bits, n);
    }
  }

  /** One more Find after `n - 1` successful ones. */
  lemma FindNStep(bits: seq<bool>, n: nat)
    requires 0 < n <= CountClear(bits)
    requires var p := FindN(bits, n - 1);
      (forall k :: 0 <= k < n - 1 ==> 0 <= p.0[k] < |bits| && !bits[p.0[k]]) &&
      (forall k, l :: 0 <= k < l < n - 1 ==> p.0[k] != p.0[l]) &&
      p.1 == Marked(bits, set x | x in p.0) &&
      CountClear(p.1) == CountClear(bits) - (n - 1)
    ensures forall k :: 0 <= k < n ==>
              0 <= FindN(bits, n).0[k] < |bits| && !bits[FindN(bits, n).0[k]]
    ensures forall k, l :: 0 <= k < l < n ==> FindN(bits, n).0[k] != FindN(bits, n).0[l]
    ensures FindN(bits, n).1 == Marked(bits, set x | x in FindN(bits, n).0)
    ensures CountClear(FindN(bits, n).1) == CountClear(bits) - n
  {
    var p := FindN(bits, n - 1);
    var f := Take(p.1).0;
    TakeCounts(p.1);
    var found := p.0 + [f];
    assert FindN(bits, n) == (found, p.1[f := true]);
    assert f !in p.0;
    assert !bits[f];
    assert (set x | x in found) == (set x | x in p.0) + {f};
    assert p.1[f := true] == Marked(bits, set x | x in found);
  }

  /** The first `k` of `m` Finds in a row are the `k` Finds alone. */
  lemma {:induction false} FindNPrefix(bits: seq<bool>, k: nat, m: nat)
    requires k <= m
    ensures FindN(bits, k).0 == FindN(bits, m).0[..k]
    decreases m
  {
    if k < m {
      FindNPrefix(bits, k, m - 1);
      assert FindN(bits, m).0[..m - 1] == FindN(bits, m - 1).0;
    }
  }

  /** `a` Finds and then `c` more are `a + c` Finds. */
  lemma {:induction false} FindNConcat(bits: seq<bool>, a: nat, c: nat)
    ensures FindN(bits, a + c).0 == FindN(bits, a).0 + FindN(FindN(bits, a).1, c).0
    ensures FindN(bits, a + c).1 == FindN(FindN(bits, a).1, c).1
    decreases c
  {
    var mid := FindN(bits, a).1;
    if c > 0 {
      FindNConcat(bits, a, c - 1);
      var p := FindN(bits, a + c - 1);
      var q := FindN(mid, c - 1);
      assert p.1 == q.1;
      var t := Take(q.1);
      assert FindN(bits, a + c).0 == p.0 + [t.0];
      assert FindN(mid, c).0 == q.0 + [t.0];
      assert p.0 + [t.0] == FindN(bits, a).0 + (q.0 + [t.0]);
    } else {
      assert FindN(bits, a).0 + FindN(mid, 0).0 == FindN(bits, a).0;
    }
  }

  /** Find number `k` of a run of `m` returns entry `k` of FindN. */
  lemma FindNNext(bits: seq<bool>, k: nat, m: nat)
    requires k < m
    ensures Take(FindN(bits, k).1) == (FindN(bits, m).0[k], FindN(bits, k + 1).1)
  {
    FindNPrefix(bits, k + 1, m);
    assert FindN(bits, k + 1).0[k] == FindN(bits, m).0[k];
  }

  /** Clearing `s` and then `t` clears `s + t`. */
  lemma UnmarkedTwice(bits: seq<bool>, s: set<int>, t: set<int>)
    ensures Unmarked(Unmarked(bits, s), t) == Unmarked(bits, s + t)
  {
    assert forall i :: 0 <= i < |bits| ==> Unmarked(Unmarked(bits, s), t)[i] == Unmarked(bits, s + t)[i];
  }

  /** Clearing one more bit. */
  lemma UnmarkedOneMore(bits: seq<bool>, s: set<int>, x: int)
    requires 0 <= x < |bits|
    ensures Unmarked(bits, s)[x := false] == Unmarked(bits, s + {x})
  {
    assert forall i :: 0 <= i < |bits| ==> Unmarked(bits, s)[x := false][i] == Unmarked(bits, s + {x})[i];
  }

  class BitMap {
    var bits: seq<bool>

    /** BitMap(nitems): every bit clear. */
    constructor (nitems: nat)
      ensures bits == seq(nitems, _ => false)
    {
      bits := seq(nitems, _ => false);
    }

    /** BitMap::Find: set and return the lowest clear bit, or return -1. */
    method Find() returns (r: int)
      modifies this
      ensures r == FirstClear(old(bits))
      ensures bits == if r == -1 then old(bits) else old(bits)[r := true]
      ensures (r, bits) == Take(old(bits))
    {
      var i := 0;
      while i < |bits| && bits[i]
        invariant 0 <= i <= |bits|
        invariant FirstClearFrom(bits, i) == FirstClear(bits)
        decreases |bits| - i
      {
        i := i + 1;
      }
      if i < |bits| {
        r := i;
        bits := bits[i := true];
      } else {
        r := -1;
      }
    }

    /** BitMap::Clear: clear one bit (the index must be in range). */
    method Clear(which: int)
      requires 0 <= which < |bits|
      modifies this
      ensures bits == old(bits)[which := false]
    {
      bits := bits[which := false];
    }

    /** BitMap::Test. */
    function Test(which: int): bool
      requires 0 <= which < |bits|
      reads this
    {
      bits[which]
    }

    /** BitMap::NumClear. */
    function NumClear(): nat
      reads this
    {
      CountClear(bits)
    }
  }
}
