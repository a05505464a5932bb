/** Little-endian words, shifts and single-bit OR of lib/compression/lzxpress.c, on natural numbers. */
module LzBits {
  import opened Common

  const WORD32 := 0x1_0000_0000

  function Word16(s: seq<byte>, i: nat): nat
    requires i + 2 <= |s|
  {
    s[i] as int + 0x100 * (s[i + 1] as int)
  }

  function Word32(s: seq<byte>, i: nat): (w: nat)
    requires i + 4 <= |s|
    ensures w < WORD32
  {
    s[i] as int + 0x100 * (s[i + 1] as int) + 0x1_0000 * (s[i + 2] as int) + 0x100_0000 * (s[i + 3] as int)
  }

  /** `x << k` before any truncation. */
  function Shl(x: nat, k: nat): nat
    decreases k
  {
    if k == 0 then x else Shl(2 * x, k - 1)
  }

  /** `x >> k`. */
  function Shr(x: nat, k: nat): nat {
    if k == 0 then x else Shr(x, k - 1) / 2
  }

  /** `x | (1 << k)`. */
  function OrBit(x: nat, k: nat): nat {
    if Shr(x, k) % 2 == 1 then x else x + Shl(1, k)
  }

  lemma {:induction false} ShrShl(x: nat, k: nat)
    ensures Shr(Shl(x, k), k) == x
    decreases k
  {
    if k > 0 {
      ShrShl(2 * x, k - 1);
    }
  }

  lemma {:induction false} ShlAdd(x: nat, y: nat, k: nat)
    ensures Shl(x + y, k) == Shl(x, k) + Shl(y, k)
    decreases k
  {
    if k > 0 {
      ShlAdd(2 * x, 2 * y, k - 1);
      assert 2 * (x + y) == 2 * x + 2 * y;
    }
  }

  lemma {:induction false} ShlZero(k: nat)
    ensures Shl(0, k) == 0
  {
    if k > 0 {
      ShlZero(k - 1);
    }
  }

  lemma {:induction false} ShlShl(x: nat, j: nat, k: nat)
    ensures Shl(Shl(x, j), k) == Shl(x, j + k)
    decreases j
  {
    if j > 0 {
      ShlShl(2 * x, j - 1, k);
    }
  }

  lemma {:induction false} ShrBound(x: nat, k: nat, m: nat)
    requires x < Shl(1, k + m)
    ensures Shr(x, k) < Shl(1, m)
    decreases k
  {
    if k > 0 {
      ShrBound(x, k - 1, m + 1);
      ShlAdd(1, 1, m);
    }
  }

  lemma Shl4(x: nat)
    ensures Shl(x, 4) == 0x10 * x
  {
    assert Shl(x, 4) == Shl(2 * x, 3) == Shl(4 * x, 2) == Shl(8 * x, 1);
  }

  lemma Shl32()
    ensures Shl(1, 32) == WORD32
  {
    ShlShl(1, 16, 16);
    ShlShl(1, 8, 8);
    ShlShl(0x100, 4, 4);
    ShlShl(0x1_0000, 8, 8);
    ShlShl(0x1_0000, 4, 4);
    ShlShl(0x100_0000, 4, 4);
    Shl4(1);
    Shl4(0x10);
    Shl4(0x100);
    Shl4(0x1000);
    Shl4(0x1_0000);
    Shl4(0x10_0000);
    Shl4(0x100_0000);
    Shl4(0x1000_0000);
    ShlShl(1, 4, 4);
  }

  /** A 32-bit word has nothing above its top bit. */
  lemma ShrWord(w: nat)
    requires w < WORD32
    ensures Shr(w, 32) == 0
  {
    Shl32();
    ShrBound(w, 32, 0);
  }

  /**
   * Setting the next lower bit of a left-aligned word: `acc` holds the `k` bits set so far, most
   * significant first, in a word of `k + m + 1` bits.
   */
  lemma AppendBit(acc: nat, k: nat, m: nat)
    requires acc < Shl(1, k)
    ensures OrBit(Shl(acc, m + 1), m) == Shl(2 * acc + 1, m)
    ensures Shl(acc, m + 1) == Shl(2 * acc, m)
    ensures 2 * acc + 1 < Shl(1, k + 1)
    ensures Shl(acc, m + 1) < Shl(1, k + m + 1)
  {
    ShrShl(2 * acc, m);
    ShlAdd(2 * acc, 1, m);
    ShlAdd(1, 1, k);
    ShlShl(1, k, m + 1);
    ShlStrict(acc, Shl(1, k), m + 1);
  }

  lemma {:induction false} ShlStrict(x: nat, y: nat, k: nat)
    requires x < y
    ensures Shl(x, k) < Shl(y, k)
    decreases k
  {
    if k > 0 {
      ShlStrict(2 * x, 2 * y, k - 1);
    }
  }
}
