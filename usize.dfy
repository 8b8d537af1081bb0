/** Rust's unsigned machine integer `usize` on a 64-bit target, and the
    overflow-aware operations the simulation uses on it. Values are `nat`s
    in `[0, UsizeMax]`; wrap-around is written out explicitly. */
module Usize {

  const UsizeMax: nat := 0xFFFF_FFFF_FFFF_FFFF
  const Modulus: nat := UsizeMax + 1

  predicate IsUsize(n: int) {
    0 <= n <= UsizeMax
  }

  /** `a.overflowing_sub(b)`: the wrapped difference and whether it wrapped. */
  function OverflowingSub(a: nat, b: nat): (r: (nat, bool))
    requires IsUsize(a) && IsUsize(b)
    ensures IsUsize(r.0) && r.0 == (a - b) % Modulus
    ensures r.1 <==> !IsUsize(a - b)
  {
    if a < b then (Modulus + a - b, true) else (a - b, false)
  }

  /** `a.overflowing_add(b)`: the wrapped sum and whether it wrapped. */
  function OverflowingAdd(a: nat, b: nat): (r: (nat, bool))
    requires IsUsize(a) && IsUsize(b)
    ensures IsUsize(r.0) && r.0 == (a + b) % Modulus
    ensures r.1 <==> !IsUsize(a + b)
  {
    if a + b > UsizeMax then (a + b - Modulus, true) else (a + b, false)
  }

  /** `a.wrapping_sub(b)`: the difference modulo 2^64. */
  function WrappingSub(a: nat, b: nat): (r: nat)
    requires IsUsize(a) && IsUsize(b)
    ensures IsUsize(r) && r == (a - b) % Modulus
  {
    OverflowingSub(a, b).0
  }
}
