/** 64-bit arithmetic as Go keeps it: results wrap around. */
module Int64 {

  const MAX_INT64 := 0x7FFF_FFFF_FFFF_FFFF

  function Wrap(n: int): int {
    var m := n % 0x1_0000_0000_0000_0000;
    if m > MAX_INT64 then m - 0x1_0000_0000_0000_0000 else m
  }

  function Pow2(k: nat): nat { if k == 0 then 1 else 2 * Pow2(k - 1) }

  lemma {:induction false} Pow2Bounds(k: nat, n: nat)
    requires k <= n
    ensures 1 <= Pow2(k) <= Pow2(n)
  {
    if k < n { Pow2Bounds(k, n - 1); } else if k > 0 { Pow2Bounds(k - 1, k - 1); }
  }

  /** `n` as 64 bits hold it, but `cap` when that is above it or not positive. */
  function Capped(n: int, cap: int): int {
    var d := Wrap(n);
    if d > cap || d <= 0 then cap else d
  }

  /** The cap works exactly when `n` fits, or wraps round to nothing or less, or to the cap or more. */
  lemma CapsExactly(n: int, cap: int)
    requires n > 0 && cap <= MAX_INT64
    ensures Capped(n, cap) == (if n < cap then n else cap) <==> n <= MAX_INT64 || Wrap(n) <= 0 || Wrap(n) >= cap
  {
    if n <= MAX_INT64 { assert Wrap(n) == n; }
  }
}
