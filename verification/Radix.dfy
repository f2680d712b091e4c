/**
 Virtual page numbers as base-512 numerals: the fields `table`, `directory`,
 `directory_ptr` and `pml` of `LinearAddress4L` (include/paging.h) are the digits.
 `Prefix(v, k)` drops the k lowest digits, `First(x, k)` is the first page under prefix x.
 */
module Radix {

  function Prefix(v: nat, k: nat): nat
  {
    if k == 0 then v else Prefix(v, k - 1) / 512
  }

  function First(x: nat, k: nat): nat
    decreases k
  {
    if k == 0 then x else First(512 * x, k - 1)
  }

  /** The digit that indexes a table of the given level: `part` in kernel/paging.c. */
  function Part(v: nat, level: nat): (i: nat)
    requires 1 <= level
    ensures i < 512
    ensures Prefix(v, level - 1) == 512 * Prefix(v, level) + i
  {
    Prefix(v, level - 1) % 512
  }

  lemma {:induction false} PrefixOfPrefix(v: nat, k: nat)
    ensures Prefix(v / 512, k) == Prefix(v, k) / 512
  {
    if k > 0 {
      PrefixOfPrefix(v, k - 1);
    }
  }

  /** `Prefix` and `First` are adjoint: all comparisons of prefixes are comparisons of pages. */
  lemma {:induction false} Galois(v: nat, x: nat, k: nat)
    ensures Prefix(v, k) < x <==> v < First(x, k)
    decreases k
  {
    if k > 0 {
      Galois(v, 512 * x, k - 1);
    }
  }

  lemma {:induction false} PrefixOfFirst(x: nat, k: nat)
    ensures Prefix(First(x, k), k) == x
  {
    Galois(First(x, k), x, k);
    Galois(First(x, k), x + 1, k);
    FirstMonotone(x, k);
  }

  lemma {:induction false} FirstMonotone(x: nat, k: nat)
    ensures First(x, k) < First(x + 1, k)
    decreases k
  {
    if k > 0 {
      FirstGap(512 * x, 512, k - 1);
    }
  }

  lemma {:induction false} FirstGap(x: nat, d: nat, k: nat)
    requires d > 0
    ensures First(x, k) < First(x + d, k)
    decreases k
  {
    if k > 0 {
      FirstGap(512 * x, 512 * d, k - 1);
    }
  }

  lemma {:induction false} PrefixMonotone(v: nat, w: nat, k: nat)
    requires v <= w
    ensures Prefix(v, k) <= Prefix(w, k)
  {
    if k > 0 {
      PrefixMonotone(v, w, k - 1);
    }
  }

  /** Below an aligned page every prefix of lower order is smaller. */
  lemma {:induction false} PrefixBelowAligned(w: nat, x: nat, k: nat, j: nat)
    requires w < First(x, k) && j <= k
    ensures Prefix(w, j) < Prefix(First(x, k), j)
    decreases k
  {
    if j == k {
      PrefixOfFirst(x, k);
      Galois(w, x, k);
    } else {
      PrefixBelowAligned(w, 512 * x, k - 1, j);
    }
  }

  /** Equal prefixes stay equal when more digits are dropped. */
  lemma {:induction false} PrefixAgrees(v: nat, w: nat, j: nat, k: nat)
    requires j <= k && Prefix(v, j) == Prefix(w, j)
    ensures Prefix(v, k) == Prefix(w, k)
    decreases k
  {
    if j < k {
      PrefixAgrees(v, w, j, k - 1);
    }
  }

  lemma {:induction false} FirstMonotoneLe(x: nat, y: nat, k: nat)
    requires x <= y
    ensures First(x, k) <= First(y, k)
  {
    if x < y {
      FirstGap(x, y - x, k);
    }
  }

  lemma {:induction false} PrefixBetween(lo: nat, w: nat, hi: nat, j: nat, m: nat)
    requires j <= m && Prefix(lo, j) <= Prefix(w, j) <= Prefix(hi, j)
    ensures Prefix(lo, m) <= Prefix(w, m) <= Prefix(hi, m)
    decreases m
  {
    if j < m {
      PrefixBetween(lo, w, hi, j, m - 1);
    }
  }

  lemma {:induction false} FirstAdd(x: nat, y: nat, k: nat)
    ensures First(x + y, k) == First(x, k) + First(y, k)
    decreases k
  {
    if k > 0 {
      FirstAdd(512 * x, 512 * y, k - 1);
    }
  }

  lemma {:induction false} FirstTimes(x: nat, k: nat)
    ensures First(512 * x, k) == 512 * First(x, k)
    decreases k
  {
    if k > 0 {
      FirstTimes(512 * x, k - 1);
    }
  }

  /** `setPart`: the digit for the given level is replaced, all others stay. */
  function WithPart(v: nat, level: nat, x: nat): (w: nat)
    requires 1 <= level && x < 512
    ensures Prefix(w, level - 1) == 512 * Prefix(v, level) + x
    ensures Prefix(w, level) == Prefix(v, level)
    ensures w - First(Prefix(w, level - 1), level - 1) == v - First(Prefix(v, level - 1), level - 1)
  {
    var k, p, q := level - 1, Prefix(v, level - 1), 512 * Prefix(v, level) + x;
    Galois(v, p, k);
    Galois(v, p + 1, k);
    FirstAdd(p, 1, k);
    FirstAdd(q, 1, k);
    var w := First(q, k) + (v - First(p, k));
    Galois(w, q, k);
    Galois(w, q + 1, k);
    w
  }
}
