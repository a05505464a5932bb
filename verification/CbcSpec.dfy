/**
 * Cipher block chaining as `AES_cbc_encrypt` of lib/crypto/aes.c does it, over any block cipher:
 * section 6.2 of NIST SP 800-38A for whole blocks, and a last block of fewer than 16 bytes that is
 * padded with the chaining value itself.
 */
module CbcSpec {

  type octet = bv8

  const BLOCK: nat := 16

  type Block = s: seq<octet> | |s| == BLOCK witness seq(BLOCK, _ => 0)

  function Xor(a: seq<octet>, b: seq<octet>): (r: seq<octet>)
    requires |a| <= |b|
    ensures |r| == |a| && forall i :: 0 <= i < |a| ==> r[i] == a[i] ^ b[i]
  {
    seq(|a|, i requires 0 <= i < |a| => a[i] ^ b[i])
  }

  /** Sizes are rounded up to whole blocks on the cipher side. */
  function Padded(n: nat): nat {
    (n + 15) / 16 * 16
  }

  /** The block that is fed to the cipher: the text XOR the chaining value, which also fills it up. */
  function Mix(p: seq<octet>, iv: Block): (r: Block)
    requires |p| <= BLOCK
  {
    Xor(p, iv) + iv[|p|..]
  }

  /** Cipher text and final chaining value. */
  function Encrypt(p: seq<octet>, iv: Block, enc: Block -> Block): (r: (seq<octet>, Block))
    ensures |r.0| == Padded(|p|)
    decreases |p|
  {
    if p == [] then ([], iv)
    else if |p| < BLOCK then
      var c := enc(Mix(p, iv));
      (c, c)
    else
      var c := enc(Mix(p[..BLOCK], iv));
      var (rest, last) := Encrypt(p[BLOCK..], c, enc);
      (c + rest, last)
  }

  /** What decryption stores and its final chaining value; a last partial block is stored in full. */
  function Decrypt(c: seq<octet>, size: nat, iv: Block, dec: Block -> Block): (r: (seq<octet>, Block))
    requires |c| == Padded(size)
    ensures |r.0| == Padded(size)
    decreases size
  {
    if size == 0 then ([], iv)
    else
      var d := dec(c[..BLOCK]);
      if size < BLOCK then
        (Xor(d[..size], iv) + d[size..], c[..BLOCK])
      else
        var (rest, last) := Decrypt(c[BLOCK..], size - BLOCK, c[..BLOCK], dec);
        (Xor(d, iv) + rest, last)
  }

  ghost predicate Inverse(enc: Block -> Block, dec: Block -> Block) {
    forall b: Block :: dec(enc(b)) == b
  }

  lemma XorTwice(p: seq<octet>, iv: Block)
    requires |p| <= BLOCK
    ensures Xor(Mix(p, iv)[..|p|], iv) == p
  {
  }

  /** Decrypting the cipher text gives the text back and ends with the same chaining value. */
  lemma {:induction false} DecryptAfterEncrypt(p: seq<octet>, iv: Block, enc: Block -> Block, dec: Block -> Block)
    requires Inverse(enc, dec)
    ensures var (c, last) := Encrypt(p, iv, enc);
            var (q, last') := Decrypt(c, |p|, iv, dec);
            q[..|p|] == p && last' == last
    decreases |p|
  {
    if p != [] {
      var c0 := enc(Mix(if |p| < BLOCK then p else p[..BLOCK], iv));
      var (c, last) := Encrypt(p, iv, enc);
      assert c[..BLOCK] == c0;
      assert dec(c0) == Mix(if |p| < BLOCK then p else p[..BLOCK], iv);
      if |p| < BLOCK {
        XorTwice(p, iv);
        var d := dec(c0);
        assert (Xor(d[..|p|], iv) + d[|p|..])[..|p|] == p;
      } else {
        XorTwice(p[..BLOCK], iv);
        var d := dec(c0);
        assert d[..BLOCK] == d;
        assert c[BLOCK..] == Encrypt(p[BLOCK..], c0, enc).0;
        DecryptAfterEncrypt(p[BLOCK..], c0, enc, dec);
        var rest := Decrypt(c[BLOCK..], |p| - BLOCK, c0, dec).0;
        assert (p[..BLOCK] + rest)[..|p|] == p[..BLOCK] + rest[..|p| - BLOCK] == p;
      }
    }
  }

  /** One call on a ++ b is two calls with the chaining value carried over, when a is whole blocks. */
  lemma {:induction false} EncryptStreams(a: seq<octet>, b: seq<octet>, iv: Block, enc: Block -> Block)
    requires |a| % 16 == 0
    ensures var (c1, iv1) := Encrypt(a, iv, enc);
            var (c2, iv2) := Encrypt(b, iv1, enc);
            Encrypt(a + b, iv, enc) == (c1 + c2, iv2)
    decreases |a|
  {
    if a == [] {
      assert a + b == b;
      assert [] + Encrypt(b, iv, enc).0 == Encrypt(b, iv, enc).0;
    } else {
      var c0 := enc(Mix(a[..BLOCK], iv));
      assert (a + b)[..BLOCK] == a[..BLOCK] && (a + b)[BLOCK..] == a[BLOCK..] + b;
      EncryptStreams(a[BLOCK..], b, c0, enc);
      var (c1, iv1) := Encrypt(a[BLOCK..], c0, enc);
      assert c0 + (c1 + Encrypt(b, iv1, enc).0) == (c0 + c1) + Encrypt(b, iv1, enc).0;
    }
  }

  lemma {:induction false} DecryptStreams(
    c1: seq<octet>, n1: nat, c2: seq<octet>, n2: nat, iv: Block, dec: Block -> Block)
    requires n1 % 16 == 0 && |c1| == n1 && |c2| == Padded(n2)
    ensures Padded(n1) == n1 && Padded(n1 + n2) == n1 + Padded(n2)
    ensures var (p1, iv1) := Decrypt(c1, n1, iv, dec);
            var (p2, iv2) := Decrypt(c2, n2, iv1, dec);
            Decrypt(c1 + c2, n1 + n2, iv, dec) == (p1 + p2, iv2)
    decreases n1
  {
    hide Decrypt, Padded;
    PaddedWhole(n1, n2);
    if n1 == 0 {
      NothingBefore(c1, c2, n2, iv, dec);
    } else {
      PaddedWhole(n1 - BLOCK, n2);
      DecryptStreams(c1[BLOCK..], n1 - BLOCK, c2, n2, c1[..BLOCK], dec);
      DecryptStreamsStep(c1, n1, c2, n2, iv, dec);
    }
  }

  lemma NothingBefore(c1: seq<octet>, c2: seq<octet>, n2: nat, iv: Block, dec: Block -> Block)
    requires c1 == [] && |c2| == Padded(n2)
    ensures c1 + c2 == c2 && Decrypt(c1, 0, iv, dec) == ([], iv)
    ensures [] + Decrypt(c2, n2, iv, dec).0 == Decrypt(c2, n2, iv, dec).0
  {
  }

  lemma DecryptStreamsStep(c1: seq<octet>, n1: nat, c2: seq<octet>, n2: nat, iv: Block, dec: Block -> Block)
    requires n1 >= BLOCK && |c1| == n1 == Padded(n1) && |c2| == Padded(n2) && Padded(n1 + n2) == n1 + Padded(n2)
    requires Padded(n1 - BLOCK) == n1 - BLOCK && Padded(n1 - BLOCK + n2) == n1 - BLOCK + Padded(n2)
    requires var (p1, iv1) := Decrypt(c1[BLOCK..], n1 - BLOCK, c1[..BLOCK], dec);
             var (p2, iv2) := Decrypt(c2, n2, iv1, dec);
             Decrypt(c1[BLOCK..] + c2, n1 - BLOCK + n2, c1[..BLOCK], dec) == (p1 + p2, iv2)
    ensures var (p1, iv1) := Decrypt(c1, n1, iv, dec);
            var (p2, iv2) := Decrypt(c2, n2, iv1, dec);
            Decrypt(c1 + c2, n1 + n2, iv, dec) == (p1 + p2, iv2)
  {
    hide Padded, Decrypt, Xor;
    var b := c1[..BLOCK];
    var d := Xor(dec(b)[..BLOCK], iv) + dec(b)[BLOCK..];
    var (p1, iv1) := Decrypt(c1[BLOCK..], n1 - BLOCK, b, dec);
    var (p2, iv2) := Decrypt(c2, n2, iv1, dec);
    DecryptUnfold(c1, n1, iv, dec);
    assert Decrypt(c1, n1, iv, dec) == (d + p1, iv1);
    DecryptUnfold(c1 + c2, n1 + n2, iv, dec);
    assert (c1 + c2)[..BLOCK] == b && (c1 + c2)[BLOCK..] == c1[BLOCK..] + c2;
    assert Decrypt(c1 + c2, n1 + n2, iv, dec) == (d + (p1 + p2), iv2);
    assert d + (p1 + p2) == (d + p1) + p2;
  }

  /** One block of decryption, whole or partial. */
  lemma DecryptUnfold(c: seq<octet>, size: nat, iv: Block, dec: Block -> Block)
    requires |c| == Padded(size) && size > 0
    ensures var n := if size < BLOCK then size else BLOCK;
            && BLOCK <= |c| && Padded(size - n) == |c| - BLOCK
            && var d := dec(c[..BLOCK]);
               var (rest, last) := Decrypt(c[BLOCK..], size - n, c[..BLOCK], dec);
               Decrypt(c, size, iv, dec) == ((Xor(d[..n], iv) + d[n..]) + rest, last)
  {
    var d := dec(c[..BLOCK]);
    if size < BLOCK {
      var x := Xor(d[..size], iv) + d[size..];
      assert x + [] == x;
    } else {
      assert d[..BLOCK] == d && d[BLOCK..] == [];
      assert Xor(d, iv) + [] == Xor(d, iv);
    }
  }

  lemma PaddedWhole(n: nat, m: nat)
    requires n % 16 == 0
    ensures Padded(n) == n && Padded(n + m) == n + Padded(m)
    ensures n <= n + Padded(m) && (m > 0 ==> Padded(m) >= BLOCK)
  {
  }

  /** The cipher block before block `j`: the IV for the first. */
  function Previous(c: seq<octet>, iv: Block, j: nat): Block
    requires 16 * j <= |c|
  {
    if j == 0 then iv else c[16 * (j - 1)..16 * j]
  }

  /** The equations of SP 800-38A: each cipher block encrypts its text block XOR the cipher block before it. */
  lemma {:induction false} BlockEquation(p: seq<octet>, iv: Block, enc: Block -> Block, j: nat)
    requires 16 * (j + 1) <= |p|
    ensures |p| <= Padded(|p|)
    ensures var c := Encrypt(p, iv, enc).0;
            c[16 * j..16 * (j + 1)] == enc(Xor(p[16 * j..16 * (j + 1)], Previous(c, iv, j)))
    decreases j
  {
    var c0 := enc(Mix(p[..BLOCK], iv));
    var c := Encrypt(p, iv, enc).0;
    assert Mix(p[..BLOCK], iv) == Xor(p[..BLOCK], iv);
    if j == 0 {
      assert c[0..16] == c0;
    } else {
      BlockEquation(p[BLOCK..], c0, enc, j - 1);
      var rest := Encrypt(p[BLOCK..], c0, enc).0;
      assert c == c0 + rest;
      assert c[16 * j..16 * (j + 1)] == rest[16 * (j - 1)..16 * j];
      assert p[BLOCK..][16 * (j - 1)..16 * j] == p[16 * j..16 * (j + 1)];
      assert Previous(c, iv, j) == Previous(rest, c0, j - 1);
    }
  }

  const ZERO: octet := 0

  /** A last block filled up with zeros. */
  function ZeroPadded(p: seq<octet>): (b: Block)
    requires |p| <= BLOCK
  {
    p + seq(BLOCK - |p|, _ => ZERO)
  }

  /** The last partial block counts as one that is filled up with zeros. */
  lemma {:induction false} LastBlockEquation(p: seq<octet>, iv: Block, enc: Block -> Block, j: nat)
    requires 16 * j < |p| < 16 * (j + 1)
    ensures |Encrypt(p, iv, enc).0| == 16 * (j + 1)
    ensures var c := Encrypt(p, iv, enc).0;
            c[16 * j..] == enc(Xor(ZeroPadded(p[16 * j..]), Previous(c, iv, j)))
    decreases j
  {
    var c := Encrypt(p, iv, enc).0;
    if j == 0 {
      assert p[0..] == p && c[0..] == c;
      MixIsPadded(p, iv);
    } else {
      var c0 := enc(Mix(p[..BLOCK], iv));
      LastBlockEquation(p[BLOCK..], c0, enc, j - 1);
      var rest := Encrypt(p[BLOCK..], c0, enc).0;
      assert c == c0 + rest;
      assert c[16 * j..] == rest[16 * (j - 1)..];
      assert p[BLOCK..][16 * (j - 1)..] == p[16 * j..];
      assert Previous(c, iv, j) == Previous(rest, c0, j - 1);
    }
  }

  lemma MixIsPadded(p: seq<octet>, iv: Block)
    requires |p| <= BLOCK
    ensures Mix(p, iv) == Xor(ZeroPadded(p), iv)
  {
    forall i | 0 <= i < BLOCK
      ensures Mix(p, iv)[i] == Xor(ZeroPadded(p), iv)[i]
    {
      assert ZERO ^ iv[i] == iv[i];
    }
  }

  /** The chaining value that is left is the last cipher block, on both sides. */
  lemma {:induction false} ChainsOn(p: seq<octet>, iv: Block, enc: Block -> Block)
    ensures var (c, last) := Encrypt(p, iv, enc);
            if p == [] then last == iv else |c| >= BLOCK && last == c[|c| - BLOCK..]
    decreases |p|
  {
    if |p| >= BLOCK {
      var c0 := enc(Mix(p[..BLOCK], iv));
      ChainsOn(p[BLOCK..], c0, enc);
      var c, rest := Encrypt(p, iv, enc).0, Encrypt(p[BLOCK..], c0, enc).0;
      if p[BLOCK..] != [] {
        assert c[|c| - BLOCK..] == rest[|rest| - BLOCK..];
      } else {
        assert c == c0;
      }
    }
  }

  /**
   * The equations of decryption: each stored block is the decrypted cipher block XOR the cipher block
   * before it. Of a last partial block only the bytes that count are XORed.
   */
  lemma {:induction false} DecryptEquation(c: seq<octet>, size: nat, iv: Block, dec: Block -> Block, j: nat)
    requires |c| == Padded(size) && 16 * j < size
    ensures 16 * (j + 1) <= |c|
    ensures var d, n := dec(c[16 * j..16 * (j + 1)]), if size < 16 * (j + 1) then size - 16 * j else BLOCK;
            Decrypt(c, size, iv, dec).0[16 * j..16 * (j + 1)] == Xor(d[..n], Previous(c, iv, j)) + d[n..]
    decreases j
  {
    hide Decrypt, Xor, Padded;
    var n := if size < BLOCK then size else BLOCK;
    DecryptUnfold(c, size, iv, dec);
    BlockInside(size, j);
    var first := Xor(dec(c[..BLOCK])[..n], iv) + dec(c[..BLOCK])[n..];
    var rest := Decrypt(c[BLOCK..], size - n, c[..BLOCK], dec).0;
    if j == 0 {
      assert c[0..16] == c[..BLOCK];
      FirstBlock(first, rest);
    } else {
      DecryptEquation(c[BLOCK..], size - BLOCK, c[..BLOCK], dec, j - 1);
      LaterBlock(first, rest, j);
      LaterBlock(c[..BLOCK], c[BLOCK..], j);
      assert c == c[..BLOCK] + c[BLOCK..];
      assert Previous(c, iv, j) == Previous(c[BLOCK..], c[..BLOCK], j - 1);
    }
  }

  lemma BlockInside(size: nat, j: nat)
    requires 16 * j < size
    ensures 16 * (j + 1) <= Padded(size)
    ensures j > 0 ==> size > BLOCK && 16 * (j - 1) < size - BLOCK
  {
  }

  lemma FirstBlock(first: seq<octet>, rest: seq<octet>)
    requires |first| == BLOCK
    ensures (first + rest)[0..16] == first
  {
  }

  lemma LaterBlock(first: seq<octet>, rest: seq<octet>, j: nat)
    requires |first| == BLOCK && j > 0 && 16 * j <= |rest|
    ensures (first + rest)[16 * j..16 * (j + 1)] == rest[16 * (j - 1)..16 * j]
  {
  }

  lemma {:induction false} DecryptChainsOn(c: seq<octet>, size: nat, iv: Block, dec: Block -> Block)
    requires |c| == Padded(size)
    ensures Decrypt(c, size, iv, dec).1 == if size == 0 then iv else c[|c| - BLOCK..]
    decreases size
  {
    if size > 0 {
      DecryptUnfold(c, size, iv, dec);
      var n := if size < BLOCK then size else BLOCK;
      DecryptChainsOn(c[BLOCK..], size - n, c[..BLOCK], dec);
      if size - n > 0 {
        assert c[BLOCK..][|c[BLOCK..]| - BLOCK..] == c[|c| - BLOCK..];
      } else {
        assert c == c[..BLOCK];
      }
    }
  }
}
