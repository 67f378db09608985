/** The XOR distance, and aligned power-of-two blocks of ids. */
module XorMetric {
  import opened Prelude

  /** Bitwise exclusive or. */
  function Xor(a: nat, b: nat): nat {
    if a == 0 && b == 0 then 0
    else 2 * Xor(a / 2, b / 2) + (if a % 2 == b % 2 then 0 else 1)
  }

  /** The number without its last `m` bits. */
  function Shift(x: nat, m: nat): nat {
    if m == 0 then x else Shift(x / 2, m - 1)
  }

  lemma {:induction false} XorHalf(a: nat, b: nat)
    ensures Xor(a, b) / 2 == Xor(a / 2, b / 2)
    ensures Xor(a, b) % 2 == (if a % 2 == b % 2 then 0 else 1)
  {
  }

  lemma {:induction false} XorShift(a: nat, b: nat, m: nat)
    ensures Shift(Xor(a, b), m) == Xor(Shift(a, m), Shift(b, m))
    decreases m
  {
    if m > 0 {
      XorHalf(a, b);
      XorShift(a / 2, b / 2, m - 1);
    }
  }

  /** Bit by bit: a bit of the distance is set exactly where the ids differ. */
  lemma {:induction false} XorBits(a: nat, b: nat, k: nat)
    ensures Shift(Xor(a, b), k) % 2 == (if Shift(a, k) % 2 == Shift(b, k) % 2 then 0 else 1)
  {
    XorShift(a, b, k);
    XorHalf(Shift(a, k), Shift(b, k));
  }

  /** Different ids have different distances to any target. */
  lemma {:induction false} XorInjective(a: nat, b: nat, target: nat)
    requires Xor(a, target) == Xor(b, target)
    ensures a == b
    decreases a + b + target
  {
    XorHalf(a, target);
    XorHalf(b, target);
    if a + b + target > 0 {
      XorInjective(a / 2, b / 2, target / 2);
    }
  }

  lemma {:induction false} ShiftOrder(u: nat, v: nat, m: nat)
    requires Shift(u, m) < Shift(v, m)
    ensures u < v
    decreases m
  {
    if m > 0 {
      ShiftOrder(u / 2, v / 2, m - 1);
    }
  }

  /** Numbers that agree above the last `m` bits are ordered alike against ones that do not. */
  lemma {:induction false} PrefixesDecide(u: nat, u': nat, v: nat, v': nat, m: nat)
    requires Shift(u, m) == Shift(u', m) && Shift(v, m) == Shift(v', m) && Shift(u, m) != Shift(v, m)
    requires u <= v
    ensures u' < v'
  {
    if Shift(u, m) > Shift(v, m) {
      ShiftOrder(v, u, m);
    } else {
      ShiftOrder(u', v', m);
    }
  }

  lemma {:induction false} DistancePrefix(a: nat, a': nat, target: nat, m: nat)
    ensures Shift(a, m) == Shift(a', m) <==> Shift(Xor(a, target), m) == Shift(Xor(a', target), m)
  {
    XorShift(a, target, m);
    XorShift(a', target, m);
    if Shift(Xor(a, target), m) == Shift(Xor(a', target), m) {
      XorInjective(Shift(a, m), Shift(a', m), Shift(target, m));
    }
  }

  /**
   * Ids that agree on all but the last `m` bits are ordered alike against ids that differ
   * above those bits: one pair of representatives decides for all.
   */
  lemma {:induction false} BlocksOrderAlike(a: nat, a': nat, b: nat, b': nat, target: nat, m: nat)
    requires Shift(a, m) == Shift(a', m) && Shift(b, m) == Shift(b', m) && Shift(a, m) != Shift(b, m)
    requires Xor(a, target) <= Xor(b, target)
    ensures Xor(a', target) < Xor(b', target)
  {
    DistancePrefix(a, a', target, m);
    DistancePrefix(b, b', target, m);
    DistancePrefix(a, b, target, m);
    PrefixesDecide(Xor(a, target), Xor(a', target), Xor(b, target), Xor(b', target), m);
  }

  // --- Aligned blocks ---

  /** `prefix` times 2 to the `m`. */
  function ShiftLeft(prefix: nat, m: nat): nat {
    if m == 0 then prefix else 2 * ShiftLeft(prefix, m - 1)
  }

  lemma {:induction false} ShiftLeftIsProduct(prefix: nat, m: nat)
    ensures ShiftLeft(prefix, m) == prefix * Pow2(m)
  {
    if m > 0 {
      ShiftLeftIsProduct(prefix, m - 1);
      TwiceProduct(prefix, Pow2(m - 1));
    }
  }

  lemma TwiceProduct(a: int, b: int)
    ensures a * (2 * b) == 2 * (a * b)
  {
  }

  /** One bit more of the prefix: either half of the block. */
  lemma {:induction false} ShiftLeftHalves(prefix: nat, m: nat)
    requires m > 0
    ensures ShiftLeft(2 * prefix, m - 1) == ShiftLeft(prefix, m)
    ensures ShiftLeft(2 * prefix + 1, m - 1) == ShiftLeft(prefix, m) + Pow2(m - 1)
  {
    if m > 1 {
      ShiftLeftHalves(prefix, m - 1);
    }
  }

  /** The ids from `start` to `end` are those whose bits above the last `m` are `prefix`. */
  ghost predicate BlockAt(start: nat, end: nat, m: nat, prefix: nat) {
    start == ShiftLeft(prefix, m) && end == start + Pow2(m) - 1
  }

  ghost predicate IsBlock(start: nat, end: nat) {
    exists m: nat, prefix: nat :: BlockAt(start, end, m, prefix)
  }

  lemma {:induction false} ShiftInBlock(x: nat, m: nat, prefix: nat)
    ensures Shift(x, m) == prefix <==> ShiftLeft(prefix, m) <= x < ShiftLeft(prefix, m) + Pow2(m)
    decreases m
  {
    if m > 0 {
      ShiftInBlock(x / 2, m - 1, prefix);
    }
  }

  lemma {:induction false} InBlock(start: nat, end: nat, m: nat, prefix: nat, x: nat)
    requires BlockAt(start, end, m, prefix)
    ensures start <= x <= end <==> Shift(x, m) == prefix
  {
    ShiftInBlock(x, m, prefix);
  }

  /** Splitting at the midpoint gives the two blocks one bit deeper. */
  lemma SplitBlock(start: nat, end: nat, m: nat, prefix: nat)
    requires BlockAt(start, end, m, prefix) && m > 0
    ensures
      var mid := start + (end - start) / 2;
      && start <= mid < end
      && BlockAt(start, mid, m - 1, 2 * prefix)
      && BlockAt(mid + 1, end, m - 1, 2 * prefix + 1)
  {
    ShiftLeftHalves(prefix, m);
  }

  lemma {:induction false} ShiftFurther(x: nat, m: nat, n: nat)
    requires m <= n
    ensures Shift(x, n) == Shift(Shift(x, m), n - m)
    decreases m
  {
    if m > 0 {
      ShiftFurther(x / 2, m - 1, n - 1);
    }
  }

  /** Two disjoint blocks differ above the bits of the larger one. */
  lemma DisjointBlocks(s1: nat, e1: nat, m1: nat, p1: nat, s2: nat, e2: nat, m2: nat, p2: nat, x: nat, y: nat)
    requires BlockAt(s1, e1, m1, p1) && BlockAt(s2, e2, m2, p2) && m1 <= m2
    requires e1 < s2 || e2 < s1
    requires s1 <= x <= e1 && s2 <= y <= e2
    ensures Shift(x, m2) == Shift(p1, m2 - m1) && Shift(y, m2) == p2 && Shift(p1, m2 - m1) != p2
  {
    InBlock(s1, e1, m1, p1, x);
    InBlock(s2, e2, m2, p2, y);
    ShiftFurther(x, m1, m2);
    InBlock(s2, e2, m2, p2, x);
  }

  /**
   * In two disjoint blocks, the distances of any two representatives are ordered as those of
   * any other two: the order of the blocks by midpoint is the order of their members.
   */
  lemma {:induction false} RepresentativesDecide(
      s1: nat, e1: nat, s2: nat, e2: nat, a: nat, a': nat, b: nat, b': nat, target: nat)
    requires IsBlock(s1, e1) && IsBlock(s2, e2) && (e1 < s2 || e2 < s1)
    requires s1 <= a <= e1 && s1 <= a' <= e1 && s2 <= b <= e2 && s2 <= b' <= e2
    requires Xor(a, target) <= Xor(b, target)
    ensures Xor(a', target) < Xor(b', target)
  {
    var m1: nat, p1: nat :| BlockAt(s1, e1, m1, p1);
    var m2: nat, p2: nat :| BlockAt(s2, e2, m2, p2);
    if m1 <= m2 {
      DisjointBlocks(s1, e1, m1, p1, s2, e2, m2, p2, a, b);
      DisjointBlocks(s1, e1, m1, p1, s2, e2, m2, p2, a', b');
      BlocksOrderAlike(a, a', b, b', target, m2);
    } else {
      DisjointBlocks(s2, e2, m2, p2, s1, e1, m1, p1, b, a);
      DisjointBlocks(s2, e2, m2, p2, s1, e1, m1, p1, b', a');
      BlocksOrderAlike(a, a', b, b', target, m1);
    }
  }
}
