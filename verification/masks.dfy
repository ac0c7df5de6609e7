/**
 * Bit masks over the nodes, as the exact solver keeps them in an `int`:
 * bit i stands for node i. Masks are naturals here; the bitwise operations
 * are defined one bit at a time.
 */
module Masks {
  import opened Paths

  /** 2^i, the value of `1 << i`. */
  function Pow2(i: nat): (p: nat)
    ensures p >= 1
    ensures i >= 1 ==> p % 2 == 0
  {
    if i == 0 then 1 else 2 * Pow2(i - 1)
  }

  /** Bit i of m is set. */
  predicate HasBit(m: nat, i: nat)
  {
    if i == 0 then m % 2 == 1 else HasBit(m / 2, i - 1)
  }

  /** m | (1 << i): bit i set, every other bit as in m. */
  function BitOr(m: nat, i: nat): (r: nat)
  {
    if i == 0 then (if m % 2 == 1 then m else m + 1)
    else 2 * BitOr(m / 2, i - 1) + m % 2
  }

  /** The mask of a path: the bits of its nodes OR-ed together in path order, from the empty mask. */
  function MaskOf(p: seq<nat>): (m: nat)
  {
    if |p| == 0 then 0 else BitOr(MaskOf(p[..|p| - 1]), p[|p| - 1])
  }

  /** Setting bit i sets that bit and leaves every other bit as it was. */
  lemma {:induction false} BitOrBits(m: nat, i: nat, v: nat)
    ensures HasBit(BitOr(m, i), v) <==> HasBit(m, v) || v == i
  {
    if i == 0 {
      if v != 0 {
        assert BitOr(m, i) / 2 == m / 2;
      }
    } else if v != 0 {
      assert BitOr(m, i) / 2 == BitOr(m / 2, i - 1);
      BitOrBits(m / 2, i - 1, v - 1);
    }
  }

  /** Setting a bit below n in a mask below 2^n keeps it below 2^n. */
  lemma {:induction false} BitOrBound(m: nat, i: nat, n: nat)
    requires m < Pow2(n) && i < n
    ensures BitOr(m, i) < Pow2(n)
  {
    var p := Pow2(n - 1);
    assert Pow2(n) == 2 * p;
    if i == 0 {
      assert m % 2 == 0 ==> m + 1 < 2 * p;
    } else {
      assert m / 2 < p;
      BitOrBound(m / 2, i - 1, n - 1);
      var b := BitOr(m / 2, i - 1);
      assert BitOr(m, i) == 2 * b + m % 2;
      assert b + 1 <= p;
      assert 2 * b + 2 <= 2 * p;
    }
  }

  /** The empty mask has no bit set. */
  lemma {:induction false} NoBits(v: nat)
    ensures !HasBit(0, v)
  {
    if v != 0 {
      NoBits(v - 1);
    }
  }

  /** A one-node mask is 2^i: the initial mask `1 << i` of a search state. */
  lemma {:induction false} SingleBit(i: nat)
    ensures BitOr(0, i) == Pow2(i)
  {
    if i != 0 {
      SingleBit(i - 1);
    }
  }

  /** Extending a path ORs the new node into its mask. */
  lemma MaskOfAppend(p: seq<nat>, x: nat)
    ensures MaskOf(p + [x]) == BitOr(MaskOf(p), x)
  {
    assert (p + [x])[..|p|] == p;
  }

  /** Bit v of a path's mask is set exactly when v is on the path. */
  lemma {:induction false} MaskOfBits(p: seq<nat>, v: nat)
    ensures HasBit(MaskOf(p), v) <==> v in p
  {
    if |p| == 0 {
      NoBits(v);
    } else {
      var q := p[..|p| - 1];
      MaskOfBits(q, v);
      BitOrBits(MaskOf(q), p[|p| - 1], v);
      assert p == q + [p[|p| - 1]];
    }
  }

  /** The mask of a path over nodes below n is below 2^n: it indexes a table of 2^n entries. */
  lemma {:induction false} MaskOfBound(p: seq<nat>, n: nat)
    requires NodesBelow(p, n)
    ensures MaskOf(p) < Pow2(n)
  {
    if |p| != 0 {
      var q := p[..|p| - 1];
      MaskOfBound(q, n);
      BitOrBound(MaskOf(q), p[|p| - 1], n);
    }
  }

  /** Two masks with the same bits are equal. */
  lemma {:induction false} SameBits(m1: nat, m2: nat)
    requires forall v: nat :: HasBit(m1, v) <==> HasBit(m2, v)
    ensures m1 == m2
    decreases m1 + m2
  {
    if m1 != 0 || m2 != 0 {
      assert HasBit(m1, 0) <==> HasBit(m2, 0);
      forall v: nat
        ensures HasBit(m1 / 2, v) <==> HasBit(m2 / 2, v)
      {
        assert HasBit(m1, v + 1) <==> HasBit(m2, v + 1);
      }
      SameBits(m1 / 2, m2 / 2);
    }
  }

  /** Paths over the same nodes, in whatever order, have the same mask: they share one table entry. */
  lemma SameNodesSameMask(p: seq<nat>, q: seq<nat>)
    requires forall v :: v in p <==> v in q
    ensures MaskOf(p) == MaskOf(q)
  {
    forall v: nat
      ensures HasBit(MaskOf(p), v) <==> HasBit(MaskOf(q), v)
    {
      MaskOfBits(p, v);
      MaskOfBits(q, v);
    }
    SameBits(MaskOf(p), MaskOf(q));
  }
}
