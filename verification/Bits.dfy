/** Single bits of numbers, and of a sixteen-bit variable. */
module Bits {
  import opened Bytes

  function Pow2(n: nat): nat {
    if n == 0 then 1 else 2 * Pow2(n - 1)
  }

  /** Bit n of x. */
  predicate BitAt(x: nat, n: nat) {
    if n == 0 then x % 2 == 1 else BitAt(x / 2, n - 1)
  }

  /** x | (1 << n) */
  function WithBitAt(x: nat, n: nat): nat {
    if n == 0 then x / 2 * 2 + 1 else x % 2 + 2 * WithBitAt(x / 2, n - 1)
  }

  lemma {:induction false} WithBitAtSets(x: nat, n: nat, m: nat)
    ensures BitAt(WithBitAt(x, n), m) <==> BitAt(x, m) || n == m
  {
    if n > 0 && m > 0 {
      WithBitAtSets(x / 2, n - 1, m - 1);
    }
  }

  lemma {:induction false} WithBitAtAdds(x: nat, n: nat)
    requires !BitAt(x, n)
    ensures WithBitAt(x, n) == x + Pow2(n)
  {
    if n > 0 {
      WithBitAtAdds(x / 2, n - 1);
    }
  }

  /** A bit within the width of a variable fits it. */
  lemma {:induction false} WithBitAtFits(x: nat, n: nat, width: nat)
    requires x < Pow2(width) && n < width
    ensures WithBitAt(x, n) < Pow2(width)
  {
    var p := Pow2(width - 1);
    assert Pow2(width) == 2 * p && x / 2 < p;
    if n == 0 {
      assert WithBitAt(x, n) == x / 2 * 2 + 1;
    } else {
      WithBitAtFits(x / 2, n - 1, width - 1);
      var y := WithBitAt(x / 2, n - 1);
      assert WithBitAt(x, n) == x % 2 + 2 * y && y < p;
    }
  }

  lemma {:induction false} Pow2Beyond16(n: nat)
    requires n >= 16
    ensures Pow2(n) == 0x1_0000 * Pow2(n - 16)
  {
    if n == 16 {
      Pow2Of16();
    } else {
      Pow2Beyond16(n - 1);
    }
  }

  lemma {:induction false} NoBitBeyond(x: nat, n: nat, width: nat)
    requires x < Pow2(width) && width <= n
    ensures !BitAt(x, n)
  {
    if n > 0 && width > 0 {
      NoBitBeyond(x / 2, n - 1, width - 1);
    } else if width == 0 && n > 0 {
      NoBitBeyond(0, n - 1, 0);
    }
  }

  lemma {:induction false} Pow2Grows(m: nat, n: nat)
    requires m <= n
    ensures Pow2(m) <= Pow2(n) && (m < n ==> 2 * Pow2(m) <= Pow2(n))
    ensures m > 0 ==> Pow2(m) % 2 == 0
  {
    if m < n {
      Pow2Grows(m, n - 1);
    }
  }

  lemma {:induction false} Pow2Beyond8(n: nat)
    requires n >= 8
    ensures Pow2(n) == 0x100 * Pow2(n - 8)
  {
    if n == 8 {
      Pow2Of16();
    } else {
      Pow2Beyond8(n - 1);
    }
  }

  lemma NoBits(n: nat)
    ensures !BitAt(0, n)
  {
    NoBitBeyond(0, n, 0);
  }

  /** x |= 1 << n on a sixteen-bit variable. */
  function Raise16(x: u16, n: nat): u16 {
    WithBitAt(x, n) % 0x1_0000
  }

  /** The bit is there afterwards exactly if it is one of the sixteen; every other one is as it was. */
  lemma Raise16Sets(x: u16, n: nat, m: nat)
    ensures BitAt(Raise16(x, n), m) <==> BitAt(x, m) || (n == m && n < 16)
    ensures n >= 16 ==> Raise16(x, n) == x
  {
    hide Pow2, WithBitAt, BitAt;
    Pow2Of16();
    WithBitAtSets(x, n, m);
    if n < 16 {
      WithBitAtFits(x, n, 16);
    } else {
      NoBitBeyond(x, n, 16);
      WithBitAtAdds(x, n);
      Pow2Beyond16(n);
    }
  }

  lemma Pow2Of16()
    ensures Pow2(16) == 0x1_0000 && Pow2(8) == 0x100
  {
    assert Pow2(4) == 16;
    assert Pow2(8) == 256;
    assert Pow2(12) == 4096;
  }
}
