/** Small shared vocabulary: optional values, fallible results, and the arithmetic of
    rounding up, which the whole project uses for pieces and chunks. */
module Prelude {

  datatype Option<+T> = None | Some(value: T)

  datatype Result<+T> = Ok(value: T) | Err(error: string)

  newtype Byte = x: int | 0 <= x < 256

  function Min(a: int, b: int): int {
    if a < b then a else b
  }

  function Max(a: int, b: int): int {
    if a < b then b else a
  }

  /** `a.saturating_sub(b)` on unsigned integers. */
  function SaturatingSub(a: nat, b: nat): nat {
    if a < b then 0 else a - b
  }

  function CeilDiv(a: nat, b: nat): nat
    requires b > 0
  {
    (a + b - 1) / b
  }

  lemma MulMono(a: nat, b: nat, c: nat)
    requires a <= b
    ensures a * c <= b * c
  {
  }

  lemma MulStep(a: nat, c: nat)
    ensures (a + 1) * c == a * c + c
  {
  }

  /** Rounding up is the least multiple that covers `a`. */
  lemma CeilDivSpec(a: nat, b: nat, q: nat)
    requires b > 0
    ensures a <= q * b <==> CeilDiv(a, b) <= q
  {
    var r := CeilDiv(a, b);
    assert a + b - 1 == r * b + (a + b - 1) % b;
    if r <= q {
      MulMono(r, q, b);
    } else {
      MulMono(q + 1, r, b);
      MulStep(q, b);
    }
  }

  /** Rounding down is the greatest multiple that does not exceed `a`. */
  lemma DivSpec(a: nat, b: nat, q: nat)
    requires b > 0
    ensures q * b <= a <==> q <= a / b
  {
    var r := a / b;
    assert a == r * b + a % b;
    if q <= r {
      MulMono(q, r, b);
    } else {
      MulMono(r + 1, q, b);
      MulStep(r, b);
    }
  }

  /** Indices of the bits that are set. */
  function Ones(bits: seq<bool>): set<nat> {
    set i: nat | i < |bits| && bits[i]
  }

  /** `bits[lo..hi].fill(value)` on a bit slice. */
  function Fill(bits: seq<bool>, lo: nat, hi: nat, value: bool): (r: seq<bool>)
    requires lo <= hi <= |bits|
    ensures |r| == |bits|
    ensures forall i :: 0 <= i < |bits| ==> r[i] == if lo <= i < hi then value else bits[i]
  {
    bits[..lo] + seq(hi - lo, _ => value) + bits[hi..]
  }

  // ---- Weighted sums over a window of indices --------------------------------------

  /** Sum of `w(i)` over the members `i` of `s` with `lo <= i < hi`. */
  function WSum(w: nat -> nat, s: set<nat>, lo: nat, hi: nat): nat
    requires lo <= hi
    decreases hi - lo
  {
    if lo == hi then 0
    else WSum(w, s, lo, hi - 1) + (if hi - 1 in s then w(hi - 1) else 0)
  }

  lemma {:induction false} WSumInsert(w: nat -> nat, s: set<nat>, x: nat, lo: nat, hi: nat)
    requires lo <= hi && x !in s
    ensures WSum(w, s + {x}, lo, hi) == WSum(w, s, lo, hi) + if lo <= x < hi then w(x) else 0
    decreases hi - lo
  {
    if lo < hi {
      WSumInsert(w, s, x, lo, hi - 1);
    }
  }

  lemma {:induction false} WSumMono(w: nat -> nat, s: set<nat>, t: set<nat>, lo: nat, hi: nat)
    requires lo <= hi
    requires forall i :: lo <= i < hi && i in s ==> i in t
    ensures WSum(w, s, lo, hi) <= WSum(w, t, lo, hi)
    decreases hi - lo
  {
    if lo < hi {
      WSumMono(w, s, t, lo, hi - 1);
    }
  }

  /** A member of `t` with positive weight that `s` lacks makes the inclusion of sums strict. */
  lemma {:induction false} WSumStrict(w: nat -> nat, s: set<nat>, t: set<nat>, x: nat, lo: nat, hi: nat)
    requires lo <= x < hi && x in t && x !in s && w(x) > 0
    requires forall i :: lo <= i < hi && i in s ==> i in t
    ensures WSum(w, s, lo, hi) < WSum(w, t, lo, hi)
    decreases hi - lo
  {
    if x == hi - 1 {
      WSumMono(w, s, t, lo, hi - 1);
    } else {
      WSumStrict(w, s, t, x, lo, hi - 1);
    }
  }

  lemma {:induction false} WSumSame(w: nat -> nat, s: set<nat>, t: set<nat>, lo: nat, hi: nat)
    requires lo <= hi
    requires forall i :: lo <= i < hi ==> (i in s <==> i in t)
    ensures WSum(w, s, lo, hi) == WSum(w, t, lo, hi)
    decreases hi - lo
  {
    if lo < hi {
      WSumSame(w, s, t, lo, hi - 1);
    }
  }
}
