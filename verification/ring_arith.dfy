/**
 * Slot arithmetic of the admin queue ring. The producer count and the
 * device's event counter are free-running 32-bit counters; command `i`
 * lives in slot `i & adminq_mask`. With a ring of `n` slots, `n` a power
 * of two dividing 2^32 and the mask `n - 1`, that slot is `i % n`.
 */
module RingArith {
  import opened Wire

  /** A slot count whose mask arithmetic is reduction modulo the count. */
  predicate ValidSlotCount(n: nat)
  {
    0 < n && TWO_32 % n == 0
  }

  /** The slot of the command with counter value `i`. */
  function Slot(i: U32, n: nat): (s: nat)
    requires ValidSlotCount(n)
    ensures s < n
  {
    i % n
  }

  /** The counter value `k` places after `tail`, modulo 2^32. */
  function Advance(tail: U32, k: nat): U32
  {
    (tail + k) % TWO_32
  }

  lemma ModOfMod(x: int, n: nat)
    requires ValidSlotCount(n)
    ensures (x % TWO_32) % n == x % n
  {
    var m := TWO_32 / n;
    assert TWO_32 == m * n;
    var q := x / TWO_32;
    assert x == q * TWO_32 + x % TWO_32;
    assert x == (q * m) * n + x % TWO_32;
    ModShift(x % TWO_32, q * m, n);
  }

  lemma ModShift(r: int, c: int, n: nat)
    requires 0 < n
    ensures (c * n + r) % n == r % n
  {
    var q := r / n;
    assert r == q * n + r % n;
    assert (c + q) * n == c * n + q * n;
    ModUnique(c * n + r, c + q, r % n, n);
  }

  /** The quotient and remainder of Euclidean division are unique. */
  lemma ModUnique(x: int, q: int, r: int, n: nat)
    requires 0 < n && 0 <= r < n && x == q * n + r
    ensures x % n == r
  {
    var t := x / n - q;
    assert x == (x / n) * n + x % n;
    assert t * n == (x / n) * n - q * n;
    assert t * n == r - x % n;
    if t >= 1 {
      MulAtLeast(t, n);
    } else if t <= -1 {
      MulAtLeast(-t, n);
    }
  }

  lemma {:induction false} MulAtLeast(t: int, n: nat)
    requires t >= 1
    ensures t * n >= n
    decreases t
  {
    if t > 1 {
      MulAtLeast(t - 1, n);
      assert t * n == (t - 1) * n + n;
    }
  }

  lemma DistinctResidues(a: int, k: nat, d: nat, n: nat)
    requires 0 < n && k < d < n
    ensures (a + k) % n != (a + d) % n
  {
    var qk, qd := (a + k) / n, (a + d) / n;
    if (a + k) % n == (a + d) % n {
      assert a + k == qk * n + (a + k) % n;
      assert a + d == qd * n + (a + d) % n;
      var t := qd - qk;
      assert t * n == qd * n - qk * n;
      assert t * n == d - k;
      if t >= 1 {
        MulAtLeast(t, n);
      } else if t <= -1 {
        MulAtLeast(-t, n);
      }
    }
  }

  /** No command from `tail` up to (not including) `prod` sits in the slot of `prod`. */
  predicate SlotFree(n: nat, tail: U32, prod: U32)
  {
    ValidSlotCount(n) && forall k :: 0 <= k < Sub32(prod, tail) ==> Slot(Advance(tail, k), n) != Slot(prod, n)
  }

  /**
   * The commands `tail, tail + 1, ..., tail + k` (modulo 2^32) occupy
   * different slots as long as fewer than `n` of them are outstanding: the
   * next producer slot does not hold any command the device has not yet
   * completed.
   */
  lemma NextSlotIsFree(n: nat, tail: U32, prod: U32)
    requires ValidSlotCount(n) && Sub32(prod, tail) < n
    ensures SlotFree(n, tail, prod)
  {
    var d := Sub32(prod, tail);
    forall k | 0 <= k < d
      ensures Slot(Advance(tail, k), n) != Slot(prod, n)
    {
      ModOfMod(tail + k, n);
      ModOfMod(tail + d, n);
      DistinctResidues(tail, k, d, n);
    }
  }

  /** One command further than `k` past `tail` is one increment of the 32-bit counter. */
  lemma AdvanceStep(tail: U32, k: nat)
    ensures Inc32(Advance(tail, k)) == Advance(tail, k + 1)
  {
    var q := (tail + k) / TWO_32;
    var a := Advance(tail, k);
    assert tail + k == q * TWO_32 + a;
    if a < TWO_32 - 1 {
      ModUnique(tail + k + 1, q, a + 1, TWO_32);
    } else {
      ModUnique(tail + k + 1, q + 1, 0, TWO_32);
    }
  }

  /** `Advance` visits the counter values in order and ends at `head`. */
  lemma AdvanceToHead(tail: U32, head: U32)
    ensures Advance(tail, Sub32(head, tail)) == head
    ensures tail <= head ==> forall k :: 0 <= k < head - tail ==> Advance(tail, k) == tail + k
  {
  }
}
