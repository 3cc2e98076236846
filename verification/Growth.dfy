/** When a growable hash map takes a larger table, whatever its strategy. */
module Growth {
  import opened Common

  const LOAD_NUM := 3
  const LOAD_DEN := 4
  const DEFAULT_BUCKETS := 8

  function ShouldGrow(growable: bool, size: nat, n: nat): bool {
    growable && (size + 1) * LOAD_DEN >= n * LOAD_NUM
  }

  function Grow(n: nat): nat {
    if n == 0 then DEFAULT_BUCKETS else if n > SIZE_MAX / 2 then n else n * 2
  }

  predicate LoadOk(size: nat, n: nat) {
    size * LOAD_DEN < n * LOAD_NUM
  }

  // With at most one entry more, in the table that growth leaves.
  lemma LoadKept(size: nat, n: nat, added: nat)
    requires LoadOk(size, n) && added <= 1
    ensures LoadOk(size + added, if ShouldGrow(true, size, n) then 2 * n else n)
  {
  }
}
