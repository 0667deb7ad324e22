/** Double hashing: the slots a search probes, and why it visits every one of them. */
module Probing {

  /** How far each further probe jumps. */
  function Jump(h: nat, size: nat): nat
    requires size > 2
  {
    1 + h % (size - 2)
  }

  /** The slot of the k-th probe. */
  function Slot(h: nat, size: nat, k: nat): (s: nat)
    requires size > 2
    ensures s < size
  {
    (h % size + k * Jump(h, size)) % size
  }

  predicate Prime(p: nat) {
    p > 1 && forall d {:trigger p % d} :: 1 < d < p ==> p % d != 0
  }

  lemma MulBounds(p: nat, d: int)
    ensures d >= 1 ==> p * d >= p
    ensures d <= -1 ==> p * d <= -1 * p
  {
  }

  lemma ModUnique(a: int, p: nat, q: int, r: nat)
    requires r < p && a == p * q + r
    ensures a % p == r
  {
    var d := a / p - q;
    assert p * d == r - a % p by {
      assert a == p * (a / p) + a % p;
      assert p * (a / p - q) == p * (a / p) - p * q;
    }
    MulBounds(p, d);
  }

  lemma CongruentDifference(a: int, b: int, p: nat)
    requires p > 0 && a % p == b % p
    ensures (b - a) % p == 0
  {
    var d := b / p - a / p;
    assert b - a == p * d + 0 by {
      assert p * (b / p - a / p) == p * (b / p) - p * (a / p);
    }
    ModUnique(b - a, p, d, 0);
  }

  /** A prime divides no product of two smaller positive numbers. */
  lemma {:induction false} NoFactors(p: nat, s: nat, d: nat)
    requires Prime(p) && 0 < s < p && 0 < d < p
    ensures (d * s) % p != 0
    decreases d
  {
    if d > 1 && (d * s) % p == 0 {
      var r, q := p % d, p / d;
      MultipleOfMultiple(q, d * s, p);
      MultipleOfMultiple(s, p, p);
      assert r * s == s * p - q * (d * s) by {
        assert p == q * d + r;
        assert (q * d + r) * s == q * (d * s) + r * s;
      }
      CongruentDifference(q * (d * s), s * p, p);
      NoFactors(p, s, r);
    }
  }

  lemma MultipleOfMultiple(q: nat, a: nat, p: nat)
    requires p > 0 && a % p == 0
    ensures (q * a) % p == 0
  {
    var c := a / p;
    assert a == p * c;
    assert q * a == p * (q * c) + 0 by {
      assert q * (p * c) == p * (q * c);
    }
    ModUnique(q * a, p, q * c, 0);
  }

  lemma StepsDiffer(base: nat, step: nat, size: nat, j: nat, k: nat)
    requires size > 0 && j < k && ((k - j) * step) % size != 0
    ensures (base + j * step) % size != (base + k * step) % size
  {
    Spread(base, j, k, step);
    if (base + j * step) % size == (base + k * step) % size {
      CongruentDifference(base + j * step, base + k * step, size);
    }
  }

  lemma Spread(base: nat, j: nat, k: nat, step: nat)
    requires j < k
    ensures (base + k * step) - (base + j * step) == (k - j) * step
  {
  }

  /** Where k steps lead to. */
  function Landing(base: nat, step: nat, size: nat, k: nat): nat
    requires size > 0
  {
    (base + k * step) % size
  }

  lemma {:induction false} LandingsCount(base: nat, step: nat, size: nat, n: nat)
    requires Prime(size) && 0 < step < size && n <= size
    ensures |set k | 0 <= k < n :: Landing(base, step, size, k)| == n
  {
    if n > 0 {
      LandingsCount(base, step, size, n - 1);
      var s := set k | 0 <= k < n - 1 :: Landing(base, step, size, k);
      assert (set k | 0 <= k < n :: Landing(base, step, size, k)) == s + {Landing(base, step, size, n - 1)};
      forall k | 0 <= k < n - 1 ensures Landing(base, step, size, k) != Landing(base, step, size, n - 1) {
        NoFactors(size, step, n - 1 - k);
        StepsDiffer(base, step, size, k, n - 1);
      }
    }
  }

  function Below(n: nat): (r: set<nat>)
    ensures |r| == n && forall k: nat :: k in r <==> k < n
  {
    if n == 0 then {} else Below(n - 1) + {n - 1}
  }

  lemma SubsetOfSameSize<T>(a: set<T>, b: set<T>)
    requires a <= b && |a| == |b|
    ensures a == b
  {
    assert |b - a| == |b| - |a|;
  }

  /** Equal steps around a prime number of slots come to every slot. */
  lemma StepsCover(base: nat, step: nat, size: nat, s: nat) returns (k: nat)
    requires Prime(size) && 0 < step < size && s < size
    ensures k < size && Landing(base, step, size, k) == s
  {
    var landings := set k | 0 <= k < size :: Landing(base, step, size, k);
    LandingsCount(base, step, size, size);
    SubsetOfSameSize(landings, Below(size));
    assert s in landings;
    k :| 0 <= k < size && Landing(base, step, size, k) == s;
  }

  /** Every slot is probed within `size` probes. */
  lemma ProbesCover(h: nat, size: nat, s: nat) returns (k: nat)
    requires Prime(size) && size > 2 && s < size
    ensures k < size && Slot(h, size, k) == s
  {
    assert 0 < Jump(h, size) < size by {
      assert h % (size - 2) < size - 2;
    }
    k := StepsCover(h % size, Jump(h, size), size, s);
  }

  /** Some multiple of a larger prime has any given remainder. */
  lemma MultipleWithRemainder(m: nat, p: nat, s: nat) returns (b: nat)
    requires Prime(m) && Prime(p) && p < m && s < p
    ensures b % m == 0 && b % p == s
  {
    var step := m % p;
    var k := StepsCover(0, step, p, s);
    b := k * m;
    ModUnique(b, m, k, 0);
    assert k * m == p * (k * (m / p)) + k * step by {
      assert m == p * (m / p) + step;
      assert k * (p * (m / p)) == p * (k * (m / p));
    }
    var d := k * step;
    ModUnique(b, p, k * (m / p) + d / p, s);
  }

  /** Adding the jump and wrapping once is the next probe. */
  lemma NextSlot(h: nat, size: nat, k: nat)
    requires size > 2
    ensures var next := Slot(h, size, k) + Jump(h, size);
            Slot(h, size, k + 1) == if next >= size then next - size else next
  {
    var step := Jump(h, size);
    var a := h % size + k * step;
    var next := a % size + step;
    assert h % size + (k + 1) * step == a + step;
    assert a == size * (a / size) + a % size;
    if next >= size {
      assert a + step == size * (a / size + 1) + (next - size) by {
        assert size * (a / size + 1) == size * (a / size) + size;
      }
      ModUnique(a + step, size, a / size + 1, next - size);
    } else {
      ModUnique(a + step, size, a / size, next);
    }
  }

  lemma FirstSlot(h: nat, size: nat)
    requires size > 2
    ensures Slot(h, size, 0) == h % size
  {
    assert 0 * Jump(h, size) == 0;
    ModUnique(h % size, size, 0, h % size);
  }

  /** Each probe is the one before it, advanced by one more than the hash modulo the size less two, and
      wrapped; the first is the hash modulo the size. */
  lemma ProbeSequence(h: nat, size: nat, k: nat)
    requires size > 2
    ensures Slot(h, size, 0) == h % size
    ensures Slot(h, size, k + 1) == (Slot(h, size, k) + 1 + h % (size - 2)) % size
  {
    FirstSlot(h, size);
    NextSlot(h, size, k);
    var next := Slot(h, size, k) + 1 + h % (size - 2);
    if next >= size {
      ModUnique(next, size, 1, next - size);
    } else {
      ModUnique(next, size, 0, next);
    }
  }

  /** Two hashes with the same first slot part at the second probe unless they agree modulo the size
      less two. */
  lemma SecondSlotsDiffer(g: nat, h: nat, size: nat)
    requires size >= 7 && g % size == h % size && g % (size - 2) != h % (size - 2)
    ensures Slot(g, size, 0) == Slot(h, size, 0) && Slot(g, size, 1) != Slot(h, size, 1)
  {
    ProbeSequence(g, size, 0);
    ProbeSequence(h, size, 0);
    NextSlot(g, size, 0);
    NextSlot(h, size, 0);
  }

  lemma {:induction false} SameProbes(g: nat, h: nat, size: nat, k: nat)
    requires size >= 7 && g % size == h % size && g % (size - 2) == h % (size - 2)
    ensures Slot(g, size, k) == Slot(h, size, k)
  {
    ProbeSequence(g, size, 0);
    ProbeSequence(h, size, 0);
    if k > 0 {
      SameProbes(g, h, size, k - 1);
      ProbeSequence(g, size, k - 1);
      ProbeSequence(h, size, k - 1);
    }
  }

  /** Two hashes look at the same slot at every probe exactly if they agree modulo the size and modulo
      the size less two; otherwise they part at the first or at the second probe. */
  lemma SameProbesIff(g: nat, h: nat, size: nat)
    requires size >= 7
    ensures (forall k: nat :: Slot(g, size, k) == Slot(h, size, k))
            <==> g % size == h % size && g % (size - 2) == h % (size - 2)
    ensures Slot(g, size, 0) == Slot(h, size, 0) && Slot(g, size, 1) == Slot(h, size, 1)
            ==> forall k: nat :: Slot(g, size, k) == Slot(h, size, k)
  {
    ProbeSequence(g, size, 0);
    ProbeSequence(h, size, 0);
    if g % size == h % size {
      if g % (size - 2) == h % (size - 2) {
        forall k: nat ensures Slot(g, size, k) == Slot(h, size, k) {
          SameProbes(g, h, size, k);
        }
      } else {
        SecondSlotsDiffer(g, h, size);
      }
    }
  }

  /** Some probe before the k-th looks at slot `s`. */
  ghost predicate PassesThrough(h: nat, size: nat, k: nat, s: nat)
    requires size > 2
  {
    exists j: nat :: j < k && Slot(h, size, j) == s
  }

  lemma {:induction false} FirstPass(h: nat, size: nat, k: nat, s: nat) returns (j: nat)
    requires size > 2 && PassesThrough(h, size, k, s)
    ensures j < k && Slot(h, size, j) == s && !PassesThrough(h, size, j, s)
    decreases k
  {
    j :| j < k && Slot(h, size, j) == s;
    if PassesThrough(h, size, j, s) {
      j := FirstPass(h, size, j, s);
    }
  }
}
