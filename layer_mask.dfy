/** Object identifiers, as handed out by the caller (an unsigned 64-bit value). */
module Id {
  newtype ID = x: int | 0 <= x < 0x1_0000_0000_0000_0000
}

/**
  The collision-layer bitmask. A `Layer` value is an unsigned 16-bit mask; bit
  `i` set means "layer `i`", for `i` in [0, 16). The coordinator selects the
  layers of a call with the test `Layer(1 << i) & l != 0`, that is, "bit `i`
  of `l` is set", which `Selects` states.
 */
module LayerMask {

  /** The number of collision layers (the length of the per-layer index array). */
  const Count: nat := 16

  /** 2 to the power 16: one more than the largest mask. */
  const Limit: nat := 0x1_0000

  newtype Layer = x: int | 0 <= x < 0x1_0000

  /** Bit `i` of the binary representation of `n`. */
  predicate BitAt(n: nat, i: nat)
    decreases i
  {
    if i == 0 then n % 2 == 1 else BitAt(n / 2, i - 1)
  }

  /** Bit `i` of `l` is set: the coordinator's per-layer selection test. */
  predicate Selects(l: Layer, i: nat)
    requires i < Count
  {
    BitAt(l as nat, i)
  }

  /** The set of layers a mask denotes. */
  function Members(l: Layer): (s: set<nat>)
    ensures forall i :: i in s ==> i < Count
  {
    set i: nat | i < Count && Selects(l, i)
  }

  /** 2 to the power `n`. */
  function Pow2(n: nat): (p: nat)
    ensures p >= 1
  {
    if n == 0 then 1 else 2 * Pow2(n - 1)
  }

  /** The number whose bit `i` is set exactly when layer `k + i` is in `s`, for `k + i < 16`. */
  function MaskFrom(s: set<nat>, k: nat): (n: nat)
    requires k <= Count
    ensures n < Pow2(Count - k)
    decreases Count - k
  {
    if k == Count then 0
    else (if k in s then 1 else 0) + 2 * MaskFrom(s, k + 1)
  }

  /** The mask that denotes the layer set `s`. */
  function FromMembers(s: set<nat>): (m: Layer)
  {
    Pow2Count();
    MaskFrom(s, 0) as Layer
  }

  lemma LowBitAndHalf(b: nat, r: nat)
    requires b < 2
    ensures (b + 2 * r) % 2 == b && (b + 2 * r) / 2 == r
  {
  }

  lemma Pow2Count()
    ensures Pow2(Count) == Limit
  {
    assert Pow2(4) == 16;
    assert Pow2(8) == 256 by {
      assert Pow2(5) == 32 && Pow2(6) == 64 && Pow2(7) == 128;
    }
    assert Pow2(12) == 4096 by {
      assert Pow2(9) == 512 && Pow2(10) == 1024 && Pow2(11) == 2048;
    }
    assert Pow2(13) == 8192 && Pow2(14) == 16384 && Pow2(15) == 32768;
  }

  lemma {:induction false} BitsOfMaskFrom(s: set<nat>, k: nat, i: nat)
    requires k + i < Count
    ensures BitAt(MaskFrom(s, k), i) <==> k + i in s
    decreases i
  {
    var b: nat := if k in s then 1 else 0;
    var rest := MaskFrom(s, k + 1);
    var n := MaskFrom(s, k);
    assert n == b + 2 * rest;
    LowBitAndHalf(b, rest);
    if i > 0 {
      assert BitAt(n, i) == BitAt(rest, i - 1);
      BitsOfMaskFrom(s, k + 1, i - 1);
    }
  }

  /** Two numbers below 2^`w` whose low `w` bits agree are equal. */
  lemma {:induction false} BitsDetermineNumber(a: nat, b: nat, w: nat)
    requires a < Pow2(w) && b < Pow2(w)
    requires forall i: nat :: i < w ==> (BitAt(a, i) <==> BitAt(b, i))
    ensures a == b
    decreases w
  {
    if w > 0 {
      assert BitAt(a, 0) <==> BitAt(b, 0);
      forall i: nat | i < w - 1
        ensures BitAt(a / 2, i) <==> BitAt(b / 2, i)
      {
        assert BitAt(a, i + 1) <==> BitAt(b, i + 1);
      }
      BitsDetermineNumber(a / 2, b / 2, w - 1);
    }
  }

  /** Building a mask from a set of layers and reading its layers back gives the set. */
  lemma {:induction false} MembersOfFromMembers(s: set<nat>)
    requires forall i :: i in s ==> i < Count
    ensures Members(FromMembers(s)) == s
  {
    var m := FromMembers(s);
    forall i: nat
      ensures i in Members(m) <==> i in s
    {
      if i < Count {
        BitsOfMaskFrom(s, 0, i);
      }
    }
  }

  /** Reading a mask's layers and building a mask from them gives the mask back. */
  lemma {:induction false} FromMembersOfMembers(l: Layer)
    ensures FromMembers(Members(l)) == l
  {
    var a: nat := FromMembers(Members(l)) as nat;
    var b: nat := l as nat;
    forall i: nat | i < Count
      ensures BitAt(a, i) <==> BitAt(b, i)
    {
      BitsOfMaskFrom(Members(l), 0, i);
    }
    Pow2Count();
    BitsDetermineNumber(a, b, Count);
  }

  /** Bit `i` of zero is clear, for every `i`. */
  lemma {:induction false} ZeroHasNoBits(i: nat)
    ensures !BitAt(0, i)
    decreases i
  {
    if i > 0 {
      ZeroHasNoBits(i - 1);
    }
  }

  /** The empty mask selects no layer. */
  lemma EmptyMaskSelectsNothing()
    ensures Members(0) == {}
  {
    forall i: nat | i < Count
      ensures !Selects(0, i)
    {
      ZeroHasNoBits(i);
    }
  }
}
