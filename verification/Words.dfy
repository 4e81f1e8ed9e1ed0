/**
 Machine words. Arithmetic on the newtypes u64 and u128 is checked never to leave
 the word; the subset types are for code that wraps, which then says so with %.
 */
module Words {
  import opened Arith

  type byte = x: int | 0 <= x < 0x100
  type word16 = x: int | 0 <= x < 0x1_0000
  type word32 = x: int | 0 <= x < 0x1_0000_0000
  type word64 = x: int | 0 <= x < 0x1_0000_0000_0000_0000
  type word128 = x: int | 0 <= x < 0x1_0000_0000_0000_0000_0000_0000_0000_0000

  newtype u64 = x: int | 0 <= x < 0x1_0000_0000_0000_0000
  newtype u128 = x: int | 0 <= x < 0x1_0000_0000_0000_0000_0000_0000_0000_0000

  /** Bitwise or of two non-negative words. */
  function BitOr(x: nat, y: nat): nat
    decreases x + y
  {
    if x == 0 && y == 0 then 0
    else (if x % 2 == 1 || y % 2 == 1 then 1 else 0) + 2 * BitOr(x / 2, y / 2)
  }

  /** Or of words without a common bit is their sum. */
  lemma {:induction false} BitOrDisjoint(x: nat, y: nat, k: nat)
    requires x < Pow(2, k) && y % Pow(2, k) == 0
    ensures BitOr(x, y) == x + y && BitOr(y, x) == x + y
    decreases k
  {
    if k == 0 {
      BitOrZero(y);
    } else {
      var w := Pow(2, k - 1);
      assert Pow(2, k) == w * 2;
      ModMod(y, 2, w);
      assert y % 2 == 0;
      HalfMultiple(y, w);
      BitOrDisjoint(x / 2, y / 2, k - 1);
    }
  }

  /** Or with the highest bit that is already set changes nothing. */
  lemma {:induction false} BitOrTop(x: nat, k: nat)
    requires Pow(2, k) <= x < 2 * Pow(2, k)
    ensures BitOr(x, Pow(2, k)) == x
    decreases k
  {
    if k == 0 {
      assert x == 1 && BitOr(0, 0) == 0;
    } else {
      assert Pow(2, k) == 2 * Pow(2, k - 1);
      BitOrTop(x / 2, k - 1);
    }
  }

  /** Or with one bit, of a word of no higher bits. */
  lemma BitOrSet(x: nat, top: nat, k: nat)
    requires top == Pow(2, k) && x < 2 * top
    ensures top > 0 && BitOr(x, top) == top + x % top
  {
    hide BitOr, Pow;
    if x < top {
      DivModUnique(top, 1, 0, top);
      BitOrDisjoint(x, top, k);
      DivModUnique(x, 0, x, top);
    } else {
      BitOrTop(x, k);
      DivModUnique(x, 1, x - top, top);
    }
  }

  lemma HalfMultiple(y: int, w: int)
    requires w > 0 && y % (w * 2) == 0
    ensures (y / 2) % w == 0
  {
    var q := y / (w * 2);
    assert y == (q * w) * 2;
    DivModUnique(y, q * w, 0, 2);
    DivModUnique(y / 2, q, 0, w);
  }

  lemma {:induction false} BitOrZero(y: nat)
    ensures BitOr(0, y) == y && BitOr(y, 0) == y
  {
    if y != 0 {
      BitOrZero(y / 2);
    }
  }
}
