// The 8-bit priority bitmaps of QF-nano and the constant-time resolver
// that finds the highest-priority ready active object.
//
// Priorities are 1-based: priority p owns bit p-1 of a bitmap.

module Bits {

  /** Bit i (0-based) of the 8-bit set s. */
  predicate IsSet(s: bv8, i: nat)
    requires i < 8
  {
    s & (1 << i) != 0
  }

  /** No bit at or above position n is set: only priorities 1..n appear in s. */
  predicate Below(s: bv8, n: nat)
  {
    forall i :: n <= i < 8 ==> !IsSet(s, i)
  }

  /** l_pow2Lkup: the one-bit mask of each priority (entry 0 unused). */
  function Pow2Lkup(p: nat): (mask: bv8)
    requires p <= 8
  {
    match p
    case 0 => 0x00 case 1 => 0x01 case 2 => 0x02 case 3 => 0x04 case 4 => 0x08
    case 5 => 0x10 case 6 => 0x20 case 7 => 0x40 case _ => 0x80
  }

  /** l_invPow2Lkup: the complement of each priority's mask (entry 0 unused). */
  function InvPow2Lkup(p: nat): (mask: bv8)
    requires p <= 8
  {
    match p
    case 0 => 0xFF case 1 => 0xFE case 2 => 0xFD case 3 => 0xFB case 4 => 0xF7
    case 5 => 0xEF case 6 => 0xDF case 7 => 0xBF case _ => 0x7F
  }

  /** log2Lkup: for a nibble n, the 1-based position of its highest set bit (0 for n == 0). */
  function Log2Lkup(n: bv8): (top: nat)
    requires n < 16
  {
    match n
    case 0 => 0 case 1 => 1 case 2 => 2 case 3 => 2
    case 4 => 3 case 5 => 3 case 6 => 3 case 7 => 3
    case _ => 4
  }

  /** `set |= l_pow2Lkup[p]`: add priority p to a bitmap. */
  function AddPrio(s: bv8, p: nat): (t: bv8)
    requires 1 <= p <= 8
  {
    s | Pow2Lkup(p)
  }

  /** `set &= l_invPow2Lkup(p)`: remove priority p from a bitmap. */
  function RemovePrio(s: bv8, p: nat): (t: bv8)
    requires 1 <= p <= 8
  {
    s & InvPow2Lkup(p)
  }

  /** The two mask tables hold 1 << (p-1) and its complement. */
  lemma MaskTables(p: nat)
    requires 1 <= p <= 8
    ensures Pow2Lkup(p) == 1 << (p - 1)
    ensures InvPow2Lkup(p) == !Pow2Lkup(p)
  {
    if p == 1 {} else if p == 2 {} else if p == 3 {} else if p == 4 {}
    else if p == 5 {} else if p == 6 {} else if p == 7 {} else {}
  }

  /** Adding a priority sets exactly that priority's bit. */
  lemma SetMask(s: bv8, p: nat, i: nat)
    requires 1 <= p <= 8 && i < 8
    ensures IsSet(AddPrio(s, p), i) <==> IsSet(s, i) || i == p - 1
  {
    MaskTables(p);
  }

  /** Removing a priority clears exactly that priority's bit. */
  lemma ClearMask(s: bv8, p: nat, i: nat)
    requires 1 <= p <= 8 && i < 8
    ensures IsSet(RemovePrio(s, p), i) <==> IsSet(s, i) && i != p - 1
  {
    if p == 1 {} else if p == 2 {} else if p == 3 {} else if p == 4 {}
    else if p == 5 {} else if p == 6 {} else if p == 7 {} else {}
  }

  /** A set with no bit set is zero, and conversely. */
  lemma ZeroIffNoBit(s: bv8)
    ensures s == 0 <==> forall i :: 0 <= i < 8 ==> !IsSet(s, i)
  {
    if s != 0 {
      if IsSet(s, 0) {} else if IsSet(s, 1) {} else if IsSet(s, 2) {} else if IsSet(s, 3) {}
      else if IsSet(s, 4) {} else if IsSet(s, 5) {} else if IsSet(s, 6) {}
      else { assert IsSet(s, 7); }
    }
  }

  /** Two bitmaps that agree on every bit are equal. */
  lemma SameBits(a: bv8, b: bv8)
    requires forall i :: 0 <= i < 8 ==> IsSet(a, i) == IsSet(b, i)
    ensures a == b
  {
    var x := a ^ b;
    ZeroIffNoBit(x);
    forall i | 0 <= i < 8 ensures !IsSet(x, i) {
      assert IsSet(a, i) == IsSet(b, i);
    }
  }

  /** p is the 1-based position of the highest set bit of s. */
  predicate IsTop(s: bv8, p: nat)
  {
    1 <= p <= 8 && IsSet(s, p - 1) && Below(s, p)
  }

  /** log2Lkup gives the highest set bit of every non-zero nibble. */
  lemma Log2LkupTop(n: bv8)
    requires 0 < n < 16
    ensures IsTop(n, Log2Lkup(n))
  {
    if n == 1 {} else if n == 2 {} else if n == 3 {} else if n == 4 {}
    else if n == 5 {} else if n == 6 {} else if n == 7 {} else if n == 8 {}
    else if n == 9 {} else if n == 10 {} else if n == 11 {} else if n == 12 {}
    else if n == 13 {} else if n == 14 {} else {}
  }

  /**
   * The resolver of QF_run: the highest priority present in a non-zero
   * ready set. With more than four priorities the upper nibble is looked
   * up first; with at most four only the lower nibble is ever consulted.
   */
  function Resolve(readySet: bv8, maxActive: nat): (p: nat)
    requires readySet != 0 && 1 <= maxActive <= 8 && Below(readySet, maxActive)
    ensures IsTop(readySet, p) && p <= maxActive
  {
    if maxActive > 4 && readySet & 0xF0 != 0 then
      var hi := readySet >> 4;
      Log2LkupTop(hi);
      var p := Log2Lkup(hi) + 4;
      assert IsSet(readySet, p - 1) by { assert IsSet(hi, p - 5); }
      assert Below(readySet, p) by {
        forall i | p <= i < 8 ensures !IsSet(readySet, i) { assert !IsSet(hi, i - 4); }
      }
      p
    else
      assert readySet < 16 by {
        if maxActive <= 4 { assert !IsSet(readySet, 4) && !IsSet(readySet, 5) && !IsSet(readySet, 6) && !IsSet(readySet, 7); }
      }
      Log2LkupTop(readySet);
      Log2Lkup(readySet)
  }

  /** Reference definition: scan bits n-1, n-2, ..., 0 for the first set one. */
  function TopFrom(s: bv8, n: nat): (p: nat)
    requires n <= 8
  {
    if n == 0 then 0 else if IsSet(s, n - 1) then n else TopFrom(s, n - 1)
  }

  /** The linear scan finds the highest set bit below n. */
  lemma {:induction false} TopFromIsTop(s: bv8, n: nat)
    requires n <= 8 && Below(s, n) && exists i :: 0 <= i < n && IsSet(s, i)
    ensures IsTop(s, TopFrom(s, n))
  {
    if !IsSet(s, n - 1) {
      TopFromIsTop(s, n - 1);
    }
  }

  /** The table-driven resolver agrees with a linear scan of the bitmap. */
  lemma ResolveIsScan(readySet: bv8, maxActive: nat)
    requires readySet != 0 && 1 <= maxActive <= 8 && Below(readySet, maxActive)
    ensures Resolve(readySet, maxActive) == TopFrom(readySet, 8)
  {
    ZeroIffNoBit(readySet);
    TopFromIsTop(readySet, 8);
  }

  /** The configuration branch does not change the answer: a set using only
      the low nibble resolves the same way under every maxActive it fits. */
  lemma ResolveIndependentOfConfig(readySet: bv8, m1: nat, m2: nat)
    requires readySet != 0 && 1 <= m1 <= 8 && 1 <= m2 <= 8
    requires Below(readySet, m1) && Below(readySet, m2)
    ensures Resolve(readySet, m1) == Resolve(readySet, m2)
  {
  }

  /** With at most four priorities the ready set fits the low nibble, and one lookup of it resolves. */
  lemma ResolveSmallConfig(readySet: bv8, maxActive: nat)
    requires readySet != 0 && 1 <= maxActive <= 4 && Below(readySet, maxActive)
    ensures readySet < 16 && Resolve(readySet, maxActive) == Log2Lkup(readySet)
  {
    assert !IsSet(readySet, 4) && !IsSet(readySet, 5) && !IsSet(readySet, 6) && !IsSet(readySet, 7);
  }

  /** Priorities 3, 4 and 6 ready (0b00101100): priority 6 runs first. */
  lemma ResolveExample()
    ensures Resolve(0x2C, 8) == 6
  {
    assert Below(0x2C, 8);
    assert IsTop(0x2C, 6) by {
      assert Below(0x2C, 6) by {
        forall i | 6 <= i < 8 ensures !IsSet(0x2C, i) { assert i == 6 || i == 7; }
      }
    }
  }
}
