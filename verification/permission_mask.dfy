/**
 * The bot's translation of a list of pallet permission flags into the
 * 64-bit permission mask Discord expects: bit `d` is set exactly when a flag
 * with discriminant `d` is listed.
 *
 * Masks are natural numbers below `2^64`; bits and bitwise or are defined on
 * them by halving, so the unsigned 64-bit arithmetic is written out.
 */
module PermissionMask {
  import opened Base
  import opened DiscordPrimitives

  /** Bit `i` of `m` (bit 0 is the least significant). */
  predicate HasBit(m: nat, i: nat)
    decreases i
  {
    if i == 0 then m % 2 == 1 else HasBit(m / 2, i - 1)
  }

  /** Bitwise or of two unsigned numbers. */
  function Or(a: nat, b: nat): (r: nat)
    decreases a + b
  {
    if a == 0 && b == 0 then 0
    else 2 * Or(a / 2, b / 2) + (if a % 2 == 1 || b % 2 == 1 then 1 else 0)
  }

  /** The unsigned 64-bit values. */
  predicate IsU64(m: nat) {
    m < Pow2(64)
  }

  /** Zero has no bit set. */
  lemma {:induction false} ZeroBits(i: nat)
    ensures !HasBit(0, i)
    decreases i
  {
    if i > 0 {
      ZeroBits(i - 1);
    }
  }

  /** The lowest bit of `a | b`, and the rest of it. */
  lemma OrHalf(a: nat, b: nat)
    ensures Or(a, b) % 2 == (if a % 2 == 1 || b % 2 == 1 then 1 else 0)
    ensures Or(a, b) / 2 == Or(a / 2, b / 2)
  {
    var low := if a % 2 == 1 || b % 2 == 1 then 1 else 0;
    var high := Or(a / 2, b / 2);
    if a == 0 && b == 0 {
      assert high == 0;
    } else {
      assert Or(a, b) == 2 * high + low;
    }
    Halves(high, low);
  }

  lemma Halves(high: nat, low: nat)
    requires low < 2
    ensures (2 * high + low) % 2 == low && (2 * high + low) / 2 == high
  {
  }

  /** A bit of `a | b` is set exactly when it is set in `a` or in `b`. */
  lemma {:induction false} OrBits(a: nat, b: nat, i: nat)
    ensures HasBit(Or(a, b), i) <==> HasBit(a, i) || HasBit(b, i)
    decreases i
  {
    OrHalf(a, b);
    if i > 0 {
      OrBits(a / 2, b / 2, i - 1);
    }
  }

  /** `2^j` has exactly bit `j` set. */
  lemma {:induction false} PowerBits(j: nat, i: nat)
    ensures HasBit(Pow2(j), i) <==> i == j
    decreases j
  {
    if j == 0 {
      if i > 0 {
        ZeroBits(i - 1);
      }
    } else if i == 0 {
      assert Pow2(j) % 2 == 0;
    } else {
      assert Pow2(j) / 2 == Pow2(j - 1);
      PowerBits(j - 1, i - 1);
    }
  }

  /** Two numbers with the same bits are equal. */
  lemma {:induction false} BitsDetermine(a: nat, b: nat)
    requires forall i: nat :: HasBit(a, i) <==> HasBit(b, i)
    ensures a == b
    decreases a + b
  {
    if a != 0 || b != 0 {
      assert HasBit(a, 0) <==> HasBit(b, 0);
      forall i: nat
        ensures HasBit(a / 2, i) <==> HasBit(b / 2, i)
      {
        assert HasBit(a, i + 1) <==> HasBit(b, i + 1);
      }
      BitsDetermine(a / 2, b / 2);
    }
  }

  /** Or keeps values within `n` bits; in particular it never leaves 64 bits. */
  lemma {:induction false} OrBound(a: nat, b: nat, n: nat)
    requires a < Pow2(n) && b < Pow2(n)
    ensures Or(a, b) < Pow2(n)
    decreases n
  {
    if n > 0 && (a != 0 || b != 0) {
      OrBound(a / 2, b / 2, n - 1);
    }
  }

  lemma {:induction false} Pow2Monotone(i: nat, j: nat)
    requires i <= j
    ensures Pow2(i) <= Pow2(j)
    decreases j
  {
    if i < j {
      Pow2Monotone(i, j - 1);
    }
  }

  /** `2^d` for a flag discriminant `d <= 40`: it fits in a `u64`, so `u64::pow` cannot overflow. */
  function BitOf(d: nat): (m: nat)
    requires d < PermissionCount
    ensures m < Pow2(PermissionCount) && IsU64(m)
    ensures forall i: nat :: HasBit(m, i) <==> i == d
  {
    assert Pow2(d) < Pow2(PermissionCount) by {
      Pow2Monotone(d + 1, PermissionCount);
    }
    assert IsU64(Pow2(d)) by {
      Pow2Monotone(PermissionCount, 64);
    }
    assert forall i: nat :: HasBit(Pow2(d), i) <==> i == d by {
      forall i: nat
        ensures HasBit(Pow2(d), i) <==> i == d
      {
        PowerBits(d, i);
      }
    }
    Pow2(d)
  }

  /** The bit one flag contributes. */
  function FlagBit(p: Permission): nat {
    BitOf(Discriminant(p))
  }

  /** The discriminants of the listed flags: the bits the mask must carry. */
  function Discriminants(perms: seq<Permission>): set<nat> {
    set p | p in perms :: Discriminant(p)
  }

  /** The mask the loop has built after the listed flags, folded in list order. */
  function MaskOf(perms: seq<Permission>): nat
    decreases |perms|
  {
    if |perms| == 0 then 0 else Or(MaskOf(perms[..|perms| - 1]), FlagBit(perms[|perms| - 1]))
  }

  /** The mask never reaches `2^41`, so it fits in a `u64`. */
  lemma {:induction false} MaskBound(perms: seq<Permission>)
    ensures MaskOf(perms) < Pow2(PermissionCount)
    decreases |perms|
  {
    if |perms| > 0 {
      var init, last := perms[..|perms| - 1], perms[|perms| - 1];
      MaskBound(init);
      OrBound(MaskOf(init), FlagBit(last), PermissionCount);
    }
  }

  lemma DiscriminantsSnoc(init: seq<Permission>, last: Permission)
    ensures Discriminants(init + [last]) == Discriminants(init) + {Discriminant(last)}
  {
    assert forall p :: p in init + [last] <==> p in init || p == last;
  }

  /** The mask has exactly the listed flags' bits. */
  lemma {:induction false} MaskBits(perms: seq<Permission>)
    ensures forall i: nat :: HasBit(MaskOf(perms), i) <==> i in Discriminants(perms)
    decreases |perms|
  {
    if |perms| == 0 {
      forall i: nat
        ensures !HasBit(0, i)
      {
        ZeroBits(i);
      }
    } else {
      var init, last := perms[..|perms| - 1], perms[|perms| - 1];
      MaskBits(init);
      assert perms == init + [last];
      DiscriminantsSnoc(init, last);
      forall i: nat
        ensures HasBit(MaskOf(perms), i) <==> i in Discriminants(perms)
      {
        OrBits(MaskOf(init), FlagBit(last), i);
      }
    }
  }

  /**
   * The mask depends only on which flags are listed: not on their order and
   * not on repetitions.
   */
  lemma MaskIgnoresOrderAndRepeats(a: seq<Permission>, b: seq<Permission>)
    requires forall p :: p in a <==> p in b
    ensures MaskOf(a) == MaskOf(b)
  {
    MaskBits(a);
    MaskBits(b);
    assert Discriminants(a) == Discriminants(b);
    BitsDetermine(MaskOf(a), MaskOf(b));
  }

  /** Listing a flag sets its bit; a flag not listed leaves its bit clear. */
  lemma MaskMembership(perms: seq<Permission>, p: Permission)
    ensures HasBit(MaskOf(perms), Discriminant(p)) <==> p in perms
  {
    MaskBits(perms);
    if Discriminant(p) in Discriminants(perms) {
      var q :| q in perms && Discriminant(q) == Discriminant(p);
      DiscriminantInjective(p, q);
    }
  }

  /**
   * `calculate_permissions` up to the final conversion: starting from zero,
   * or the bit of each listed flag into a `u64`.
   */
  method CalculatePermissions(perms: seq<Permission>) returns (mask: nat)
    ensures mask == MaskOf(perms)
    ensures IsU64(mask) && mask < Pow2(PermissionCount)
    ensures forall i: nat :: HasBit(mask, i) <==> i in Discriminants(perms)
  {
    mask := 0;
    var k := 0;
    while k < |perms|
      invariant 0 <= k <= |perms|
      invariant mask == MaskOf(perms[..k])
    {
      assert perms[..k + 1][..k] == perms[..k];
      mask := Or(mask, FlagBit(perms[k]));
      k := k + 1;
    }
    assert perms[..k] == perms;
    MaskBits(perms);
    MaskBound(perms);
    Pow2Monotone(PermissionCount, 64);
  }
}
