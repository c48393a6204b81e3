/** The client index: a push counter reduced modulo 100 000, and the modular comparison
    that decides which cache entries a client has not seen yet.

    `raw` numbers count pushes without any bound: push number 1 is the first one, and a
    client "at raw position c" has seen the first c pushes. The code only ever sees them
    modulo MODULUS. */
module Positions {
  import opened Basics

  const MODULUS := 100_000
  const HALF := 50_000

  /** `position()` for a raw 32-bit counter. */
  function Position(counter: Word32): (p: Word32)
    ensures p < MODULUS
  {
    counter % MODULUS
  }

  /** Modular distance as the code computes it, in unsigned 32-bit arithmetic. */
  function Distance(to: Word32, since: Word32): (d: Word32)
    ensures d < MODULUS
  {
    Wrap(to - since + MODULUS) % MODULUS
  }

  /** The decision of the loop in `get_delta` for one entry that exists and is fresh. */
  predicate Delivered(since: Word32, position: Word32, pushedAt: Word32) {
    var epochDistance := Distance(position, since);
    if since != 0 && epochDistance >= HALF then
      true
    else
      var entryDistance := Distance(pushedAt, since);
      entryDistance <= epochDistance && !(since != 0 && entryDistance == 0)
  }

  /** Whether a client at raw position `c` is handed push number `r` when `n` pushes
      have happened. */
  predicate DeliveredAt(c: nat, n: nat, r: nat) {
    Delivered(Position(Wrap(c)), Position(Wrap(n)), Position(Wrap(r)))
  }

  /** Every push the client has not seen is handed over. */
  ghost predicate Complete(c: nat, n: nat) {
    forall r: nat | c < r <= n :: DeliveredAt(c, n, r)
  }

  /** Among the last MODULUS pushes, exactly the unseen ones are handed over. */
  ghost predicate Exact(c: nat, n: nat) {
    forall r: nat | 0 < r <= n && n - r < MODULUS :: DeliveredAt(c, n, r) <==> c < r
  }

  predicate CompleteCondition(c: nat, n: nat)
    requires c <= n
  {
    || n - c < MODULUS
    || if c % MODULUS == 0 then n % MODULUS == MODULUS - 1 else (n - c) % MODULUS >= HALF
  }

  predicate ExactCondition(c: nat, n: nat)
    requires c <= n
  {
    if c == 0 then
      n < MODULUS || n % MODULUS == MODULUS - 1
    else if c % MODULUS == 0 then
      n - c >= MODULUS && n % MODULUS == MODULUS - 1
    else
      n - c < HALF || (n - c >= MODULUS && (n - c) % MODULUS >= HALF)
  }

  lemma ModIs(x: int, k: int, d: int)
    requires x == k * MODULUS + d && 0 <= d < MODULUS
    ensures x % MODULUS == d
  {}

  /** The unsigned subtraction of the code is subtraction modulo MODULUS. */
  lemma DistanceIsModular(a: nat, b: nat)
    ensures Distance(a % MODULUS, b % MODULUS) == (a - b) % MODULUS
  {
    var x, y := a % MODULUS, b % MODULUS;
    var k := a / MODULUS - b / MODULUS;
    assert a - b == k * MODULUS + (x - y);
    if x < y {
      ModIs(a - b, k - 1, x - y + MODULUS);
    } else {
      ModIs(a - b, k, x - y);
      ModIs(x - y + MODULUS, 1, x - y);
    }
  }

  /** The code's decision for an index other than 0, in terms of raw positions. */
  lemma DeliveredFromIndex(c: nat, n: nat, r: nat)
    requires c <= n < 0x1_0000_0000 && r <= n && c % MODULUS != 0
    ensures DeliveredAt(c, n, r) <==>
              || (n - c) % MODULUS >= HALF
              || 0 < (r - c) % MODULUS <= (n - c) % MODULUS
  {
    assert Wrap(c) == c && Wrap(n) == n && Wrap(r) == r;
    DistanceIsModular(n, c);
    DistanceIsModular(r, c);
  }

  /** The code's decision for index 0. */
  lemma DeliveredFromZero(c: nat, n: nat, r: nat)
    requires c <= n < 0x1_0000_0000 && r <= n && c % MODULUS == 0
    ensures DeliveredAt(c, n, r) <==> r % MODULUS <= n % MODULUS
  {
    assert Wrap(c) == c && Wrap(n) == n && Wrap(r) == r;
    ModIs(n % MODULUS + MODULUS, 1, n % MODULUS);
    ModIs(r % MODULUS + MODULUS, 1, r % MODULUS);
  }

  lemma UnseenIsDelivered(c: nat, n: nat, r: nat)
    requires c < r <= n < 0x1_0000_0000
    requires CompleteCondition(c, n)
    ensures DeliveredAt(c, n, r)
  {
    if c % MODULUS == 0 {
      DeliveredFromZero(c, n, r);
      if n - c < MODULUS {
        ModIs(n, c / MODULUS, n - c);
        ModIs(r, c / MODULUS, r - c);
      }
    } else {
      DeliveredFromIndex(c, n, r);
      if n - c < MODULUS {
        ModIs(n - c, 0, n - c);
        ModIs(r - c, 0, r - c);
      }
    }
  }

  /** A push that is lost when the condition fails. */
  function Lost(c: nat): (r: nat)
    ensures c < r
  {
    if c % MODULUS == 0 then c + MODULUS - 1 else c + MODULUS
  }

  lemma LostIsNotDelivered(c: nat, n: nat)
    requires c <= n < 0x1_0000_0000
    requires !CompleteCondition(c, n)
    ensures Lost(c) <= n && !DeliveredAt(c, n, Lost(c))
  {
    if c % MODULUS == 0 {
      DeliveredFromZero(c, n, Lost(c));
      ModIs(Lost(c), c / MODULUS, MODULUS - 1);
    } else {
      DeliveredFromIndex(c, n, Lost(c));
      ModIs(MODULUS, 1, 0);
    }
  }

  /** No telegram is lost exactly when this condition on the index and the counter holds;
      in particular whenever fewer than MODULUS pushes separate the two. */
  lemma CompleteExactlyWhen(c: nat, n: nat)
    requires c <= n < 0x1_0000_0000
    ensures Complete(c, n) <==> CompleteCondition(c, n)
  {
    if CompleteCondition(c, n) {
      forall r: nat | c < r <= n ensures DeliveredAt(c, n, r) {
        UnseenIsDelivered(c, n, r);
      }
    } else {
      LostIsNotDelivered(c, n);
    }
  }

  lemma SeenIsNotDelivered(c: nat, n: nat, r: nat)
    requires 0 < r <= c <= n < 0x1_0000_0000 && n - r < MODULUS
    requires ExactCondition(c, n)
    ensures !DeliveredAt(c, n, r)
  {
    DeliveredFromIndex(c, n, r);
    ModIs(n - c, 0, n - c);
    if r == c {
      ModIs(r - c, 0, 0);
    } else {
      ModIs(r - c, -1, r - c + MODULUS);
    }
  }

  /** A push on which delivery is wrong when the condition fails. */
  function Misjudged(c: nat, n: nat): (r: int)
    requires c <= n
  {
    if n - c < MODULUS then c
    else if c % MODULUS == 0 then n - n % MODULUS - 1
    else n - (n - c) % MODULUS
  }

  lemma MisjudgedIsWrong(c: nat, n: nat)
    requires c <= n < 0x1_0000_0000
    requires !ExactCondition(c, n)
    ensures var r := Misjudged(c, n);
            0 < r <= n && n - r < MODULUS && DeliveredAt(c, n, r) != (c < r)
  {
    var r := Misjudged(c, n);
    if n - c < MODULUS {
      if c % MODULUS == 0 {
        DeliveredFromZero(c, n, r);
      } else {
        DeliveredFromIndex(c, n, r);
        ModIs(n - c, 0, n - c);
      }
    } else if c % MODULUS == 0 {
      DeliveredFromZero(c, n, r);
      ModIs(r, n / MODULUS - 1, MODULUS - 1);
    } else {
      DeliveredFromIndex(c, n, r);
      ModIs(r - c, (n - c) / MODULUS, 0);
    }
  }

  /** No telegram is delivered twice, and none is lost, exactly under this condition. */
  lemma ExactExactlyWhen(c: nat, n: nat)
    requires c <= n < 0x1_0000_0000
    ensures Exact(c, n) <==> ExactCondition(c, n)
  {
    if ExactCondition(c, n) {
      forall r: nat | 0 < r <= n && n - r < MODULUS ensures DeliveredAt(c, n, r) <==> c < r {
        if c < r {
          UnseenIsDelivered(c, n, r);
        } else {
          SeenIsNotDelivered(c, n, r);
        }
      }
    } else {
      MisjudgedIsWrong(c, n);
    }
  }

  /** The 32-bit counter shows the raw count modulo MODULUS exactly in those epochs of
      2^32 pushes whose number is a multiple of 3125: 2^32 is not a multiple of MODULUS. */
  lemma CounterShowsRawCountExactlyWhen(n: nat)
    ensures Position(Wrap(n)) == n % MODULUS <==> (n / 0x1_0000_0000) % 3125 == 0
  {
    var q, w := n / 0x1_0000_0000, n % 0x1_0000_0000;
    var m := 2103 * q;
    // 2^32 == 42949 * MODULUS + 67296, 67296 == 32 * 2103 and MODULUS == 32 * 3125
    assert n == (42949 * q) * MODULUS + 32 * m + w;
    var j, i := m / 3125, m % 3125;
    assert n - w == (42949 * q + j) * MODULUS + 32 * i;
    MultipleOf3125(q);
    ShiftKeepsResidue(w, 42949 * q + j, 32 * i);
  }

  lemma ShiftKeepsResidue(w: nat, k: nat, d: nat)
    requires d < MODULUS
    ensures (w + k * MODULUS + d) % MODULUS == w % MODULUS <==> d == 0
  {
    var a := w % MODULUS;
    var x := w + k * MODULUS + d;
    assert x == (w / MODULUS + k) * MODULUS + a + d;
    if a + d < MODULUS {
      ModIs(x, w / MODULUS + k, a + d);
    } else {
      ModIs(x, w / MODULUS + k + 1, a + d - MODULUS);
    }
  }

  /** 2103 and 3125 have no common factor: 1642 * 2103 == 1105 * 3125 + 1. */
  lemma MultipleOf3125(q: nat)
    ensures (2103 * q) % 3125 == 0 <==> q % 3125 == 0
  {
    if q % 3125 == 0 {
      assert 2103 * q == (2103 * (q / 3125)) * 3125;
    }
    if (2103 * q) % 3125 == 0 {
      var j := (2103 * q) / 3125;
      assert q == (1642 * j - 1105 * q) * 3125;
    }
  }
}
