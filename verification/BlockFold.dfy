/** Folding a step over the 64-byte blocks of a message. */
module BlockFold {
  import opened Bits

  function Block(m: Bytes, i: nat): (block: Bytes)
    requires 64 * (i + 1) <= |m|
    ensures |block| == 64
  {
    m[64 * i..64 * (i + 1)]
  }

  // The state after the first n blocks.
  function Fold<S>(step: (S, Bytes) -> S, s: S, m: Bytes, n: nat): S
    requires 64 * n <= |m|
  {
    if n == 0 then s else step(Fold(step, s, m, n - 1), Block(m, n - 1))
  }

  // Later bytes do not matter to the first n blocks.
  lemma {:induction false} FoldReadsPrefix<S>(step: (S, Bytes) -> S, s: S, a: Bytes, b: Bytes, n: nat)
    requires 64 * n <= |a|
    ensures Fold(step, s, a + b, n) == Fold(step, s, a, n)
  {
    if n > 0 {
      FoldReadsPrefix(step, s, a, b, n - 1);
      assert Block(a + b, n - 1) == Block(a, n - 1);
    }
  }

  // A fold can be interrupted at any block boundary and resumed from its state.
  lemma {:induction false} FoldComposes<S>(step: (S, Bytes) -> S, s: S, a: Bytes, b: Bytes, k: nat, n: nat)
    requires |a| == 64 * k && 64 * n <= |b|
    ensures Fold(step, s, a + b, k + n) == Fold(step, Fold(step, s, a, k), b, n)
  {
    if n == 0 {
      FoldReadsPrefix(step, s, a, b, k);
    } else {
      FoldComposes(step, s, a, b, k, n - 1);
      assert Block(a + b, k + n - 1) == Block(b, n - 1);
    }
  }
}
