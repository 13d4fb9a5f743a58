/** Double hashing modulo a prime: the probe sequence visits every slot before it repeats. */
module Probing {
  import opened Arithmetic

  ghost predicate Prime(p: nat) {
    p > 1 && forall d :: 1 < d < p ==> p % d != 0
  }

  /** Euclid's lemma, with the cofactor as witness. */
  lemma {:induction false} Euclid(p: nat, a: nat, b: int, k: int) returns (m: int)
    requires Prime(p) && 0 < a < p && a * b == p * k
    ensures b == p * m
    decreases a
  {
    if a == 1 {
      m := k;
    } else {
      var q, r := p / a, p % a;
      assert 0 < r < a;
      assert p == q * a + r;
      EuclidStep(p, a, b, k, q, r);
      m := Euclid(p, r, b, b - q * k);
    }
  }

  lemma EuclidStep(p: int, a: int, b: int, k: int, q: int, r: int)
    requires a * b == p * k && p == q * a + r
    ensures r * b == p * (b - q * k)
  {
  }

  /** The slot tried in round `k` by a probe that starts at `start` and advances by `incr`. */
  function Slot(start: nat, incr: nat, size: nat, k: nat): nat
    requires size > 0
  {
    (start + k * incr) % size
  }

  lemma SlotNext(start: nat, incr: nat, size: nat, k: nat)
    requires 0 < incr < size
    ensures var idx := Slot(start, incr, size, k);
      Slot(start, incr, size, k + 1) == if idx >= size - incr then idx - (size - incr) else idx + incr
  {
    var t := start + k * incr;
    assert start + (k + 1) * incr == t + incr;
    ModAdd(t, incr, size);
  }

  lemma ModAdd(t: nat, d: nat, size: nat)
    requires d < size
    ensures (t + d) % size == if t % size + d >= size then t % size + d - size else t % size + d
  {
    var q := t / size;
    assert t == q * size + t % size && (q + 1) * size == q * size + size;
    if t % size + d >= size {
      RemainderIs(t + d, q + 1, t % size + d - size, size);
    } else {
      RemainderIs(t + d, q, t % size + d, size);
    }
  }

  /** Two rounds among the first `size` never try the same slot. */
  lemma SlotsDiffer(start: nat, incr: nat, size: nat, i: nat, j: nat)
    requires Prime(size) && 0 < incr < size && i < j < size
    ensures Slot(start, incr, size, i) != Slot(start, incr, size, j)
  {
    var x, y := start + i * incr, start + j * incr;
    if x % size == y % size {
      var k := y / size - x / size;
      assert incr * (j - i) == size * k by {
        assert x == size * (x / size) + x % size;
        assert y == size * (y / size) + y % size;
        assert y - x == incr * (j - i);
      }
      var m := Euclid(size, incr, j - i, k);
      MultipleAtLeast(m, size);
    }
  }

  /** The slots tried in the first `k` rounds. */
  ghost function Tried(start: nat, incr: nat, size: nat, k: nat): set<nat>
    requires size > 0
  {
    if k == 0 then {} else Tried(start, incr, size, k - 1) + {Slot(start, incr, size, k - 1)}
  }

  ghost predicate TriedBy(start: nat, incr: nat, size: nat, k: nat, s: nat)
    requires size > 0
  {
    exists j :: 0 <= j < k && s == Slot(start, incr, size, j)
  }

  lemma {:induction false} TriedMembers(start: nat, incr: nat, size: nat, k: nat)
    requires size > 0
    ensures forall s :: s in Tried(start, incr, size, k) <==> TriedBy(start, incr, size, k, s)
  {
    hide Slot;
    if k > 0 {
      TriedMembers(start, incr, size, k - 1);
      forall s
        ensures TriedBy(start, incr, size, k, s)
           <==> TriedBy(start, incr, size, k - 1, s) || s == Slot(start, incr, size, k - 1)
      {
        if TriedBy(start, incr, size, k, s) {
          var j :| 0 <= j < k && s == Slot(start, incr, size, j);
          assert j < k - 1 || j == k - 1;
        }
      }
    }
  }

  lemma {:induction false} TriedCount(start: nat, incr: nat, size: nat, k: nat)
    requires Prime(size) && 0 < incr < size && k <= size
    ensures |Tried(start, incr, size, k)| == k
  {
    if k > 0 {
      TriedCount(start, incr, size, k - 1);
      TriedMembers(start, incr, size, k - 1);
      forall j | 0 <= j < k - 1
        ensures Slot(start, incr, size, j) != Slot(start, incr, size, k - 1)
      {
        SlotsDiffer(start, incr, size, j, k - 1);
      }
      assert !TriedBy(start, incr, size, k - 1, Slot(start, incr, size, k - 1));
    }
  }

  ghost function Below(n: nat): (r: set<nat>)
    ensures |r| == n && forall i: nat :: i in r <==> i < n
  {
    if n == 0 then {} else Below(n - 1) + {n - 1}
  }

  lemma SubsetCount(a: set<nat>, b: set<nat>)
    requires a <= b && |a| == |b|
    ensures a == b
  {
    assert |b - a| == |b| - |a|;
  }

  /** Every slot of a prime-sized table is tried within the first `size` rounds. */
  lemma EverySlotTried(start: nat, incr: nat, size: nat, s: nat) returns (k: nat)
    requires Prime(size) && 0 < incr < size && s < size
    ensures k < size && Slot(start, incr, size, k) == s
  {
    TriedCount(start, incr, size, size);
    TriedMembers(start, incr, size, size);
    SubsetCount(Tried(start, incr, size, size), Below(size));
    assert s in Below(size);
    k :| 0 <= k < size && s == Slot(start, incr, size, k);
  }
}
