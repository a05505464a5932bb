/** `AES_cbc_encrypt` of lib/crypto/aes.c: separate buffers, or the same buffer for input and output. */
module Cbc {
  import opened CbcSpec

  /** The XOR loops into `tmp`; the chaining value fills up a short block. */
  method MixInto(tmp: array<octet>, input: array<octet>, pos: nat, n: nat, iv: array<octet>)
    requires tmp.Length == BLOCK && iv.Length == BLOCK && n <= BLOCK && pos + n <= input.Length
    requires tmp != input && tmp != iv
    modifies tmp
    ensures tmp[..] == Mix(input[pos..pos + n], iv[..])
  {
    var i := 0;
    while i < n
      invariant i <= n
      invariant forall k :: 0 <= k < i ==> tmp[k] == input[pos + k] ^ iv[k]
    {
      tmp[i] := input[pos + i] ^ iv[i];
      i := i + 1;
    }
    while i < BLOCK
      invariant n <= i <= BLOCK
      invariant forall k :: 0 <= k < n ==> tmp[k] == input[pos + k] ^ iv[k]
      invariant forall k :: n <= k < i ==> tmp[k] == iv[k]
    {
      tmp[i] := iv[i];
      i := i + 1;
    }
    MixIs(tmp[..], input[pos..pos + n], iv[..]);
  }

  lemma MixIs(t: seq<octet>, p: seq<octet>, iv: Block)
    requires |t| == BLOCK && |p| <= BLOCK
    requires forall k :: 0 <= k < |p| ==> t[k] == p[k] ^ iv[k]
    requires forall k :: |p| <= k < BLOCK ==> t[k] == iv[k]
    ensures t == Mix(p, iv)
  {
  }

  /** Storing a whole block at `pos`. */
  method StoreBlock(a: array<octet>, pos: nat, b: Block)
    requires pos + BLOCK <= a.Length
    modifies a
    ensures a[pos..pos + BLOCK] == b
    ensures forall k :: 0 <= k < a.Length && !(pos <= k < pos + BLOCK) ==> a[k] == old(a[k])
  {
    forall i | 0 <= i < BLOCK {
      a[pos + i] := b[i];
    }
  }

  method EncryptBlock(input: array<octet>, output: array<octet>, pos: nat, n: nat, iv: array<octet>,
    enc: Block -> Block)
    requires iv != input && iv != output && iv.Length == BLOCK
    requires n <= BLOCK && pos + n <= input.Length && pos + BLOCK <= output.Length
    modifies output, iv
    ensures iv[..] == enc(Mix(old(input[pos..pos + n]), old(iv[..])))
    ensures output[..pos + BLOCK] == old(output[..pos]) + iv[..]
    ensures forall k :: pos + BLOCK <= k < output.Length ==> output[k] == old(output[k])
    ensures forall k :: pos + BLOCK <= k < input.Length ==> input[k] == old(input[k])
  {
    var tmp := new octet[BLOCK];
    MixInto(tmp, input, pos, n, iv);
    StoreBlock(output, pos, enc(tmp[..]));
    ghost var c := output[pos..pos + BLOCK];
    var b: Block := output[pos..pos + BLOCK];
    StoreBlock(iv, 0, b);
    assert iv[..] == iv[0..0 + BLOCK] == c;
    assert output[..pos + BLOCK] == output[..pos] + c;
  }

  /** One round of the encryption loop, and the partial block, on the specification. */
  lemma EncryptStep(p: seq<octet>, pos: nat, done: seq<octet>, iv: Block, enc: Block -> Block)
    requires pos < |p| && pos % BLOCK == 0
    ensures var n := if |p| - pos < BLOCK then |p| - pos else BLOCK;
            var c := enc(Mix(p[pos..pos + n], iv));
            && done + Encrypt(p[pos..], iv, enc).0 == (done + c) + Encrypt(p[pos + n..], c, enc).0
            && Encrypt(p[pos..], iv, enc).1 == Encrypt(p[pos + n..], c, enc).1
            && Padded(|p| - pos) == BLOCK + Padded(|p| - (pos + n))
  {
    var n := if |p| - pos < BLOCK then |p| - pos else BLOCK;
    assert p[pos..][..n] == p[pos..pos + n] && p[pos..][n..] == p[pos + n..];
    var c := enc(Mix(p[pos..pos + n], iv));
    var rest := Encrypt(p[pos + n..], c, enc);
    assert Encrypt(p[pos..], iv, enc) == (c + rest.0, rest.1) by {
      if n < BLOCK {
        assert p[pos..] == p[pos..pos + n] && p[pos + n..] == [];
        assert c + [] == c;
      }
    }
    assert done + (c + rest.0) == (done + c) + rest.0;
  }

  /** The forward branch: any size, the same buffer allowed for both sides. */
  method EncryptCbc(input: array<octet>, output: array<octet>, size: nat, iv: array<octet>, enc: Block -> Block)
    requires iv != input && iv != output && iv.Length == BLOCK
    requires size <= input.Length && Padded(size) <= output.Length
    modifies output, iv
    ensures (output[..Padded(size)], iv[..]) == Encrypt(old(input[..size]), old(iv[..]), enc)
    ensures forall k :: Padded(size) <= k < output.Length ==> output[k] == old(output[k])
  {
    hide Encrypt, Mix, Padded;
    PaddedZero();
    ghost var p, goal, o := input[..size], Encrypt(input[..size], iv[..], enc), output[..];
    var pos := 0;
    assert output[..0] + Encrypt(p[0..], iv[..], enc).0 == goal.0 by { assert p[0..] == p; }
    while size - pos >= BLOCK
      invariant pos <= size && pos % BLOCK == 0 && pos + Padded(size - pos) == Padded(size)
      invariant forall k :: pos <= k < size ==> input[k] == p[k]
      invariant forall k :: pos <= k < output.Length ==> output[k] == o[k]
      invariant output[..pos] + Encrypt(p[pos..], iv[..], enc).0 == goal.0
      invariant Encrypt(p[pos..], iv[..], enc).1 == goal.1
    {
      EncryptStep(p, pos, output[..pos], iv[..], enc);
      assert input[pos..pos + BLOCK] == p[pos..pos + BLOCK];
      EncryptBlock(input, output, pos, BLOCK, iv, enc);
      pos := pos + BLOCK;
    }
    ghost var end := pos;
    if size - pos > 0 {
      EncryptStep(p, pos, output[..pos], iv[..], enc);
      assert input[pos..size] == p[pos..size];
      EncryptBlock(input, output, pos, size - pos, iv, enc);
      end := pos + BLOCK;
    }
    assert end == Padded(size);
    NothingLeft(p, output[..end], iv[..], enc);
  }

  lemma PaddedZero()
    ensures Padded(0) == 0
  {
  }

  lemma NothingLeft(p: seq<octet>, done: seq<octet>, iv: Block, enc: Block -> Block)
    ensures done + Encrypt(p[|p|..], iv, enc).0 == done && Encrypt(p[|p|..], iv, enc).1 == iv
  {
  }

  method XorInPlace(a: array<octet>, pos: nat, n: nat, iv: array<octet>, ghost d: Block)
    requires a != iv && iv.Length == BLOCK && n <= BLOCK && pos + BLOCK <= a.Length
    requires a[pos..pos + BLOCK] == d
    modifies a
    ensures a[..pos + BLOCK] == old(a[..pos]) + (Xor(d[..n], iv[..]) + d[n..])
    ensures forall k :: pos + BLOCK <= k < a.Length ==> a[k] == old(a[k])
  {
    ghost var before := a[..pos];
    var i := 0;
    while i < n
      invariant i <= n
      invariant a[..pos] == before
      invariant forall k :: 0 <= k < i ==> a[pos + k] == d[k] ^ iv[k]
      invariant forall k :: i <= k < BLOCK ==> a[pos + k] == d[k]
      invariant forall k :: pos + BLOCK <= k < a.Length ==> a[k] == old(a[k])
    {
      a[pos + i] := a[pos + i] ^ iv[i];
      i := i + 1;
    }
    assert a[pos..pos + BLOCK] == Xor(d[..n], iv[..]) + d[n..];
    assert a[..pos + BLOCK] == a[..pos] + a[pos..pos + BLOCK];
  }

  method DecryptBlock(input: array<octet>, output: array<octet>, pos: nat, n: nat, iv: array<octet>,
    dec: Block -> Block)
    requires iv != input && iv != output && iv.Length == BLOCK && n <= BLOCK
    requires pos + BLOCK <= input.Length && pos + BLOCK <= output.Length
    modifies output, iv
    ensures iv[..] == old(input[pos..pos + BLOCK])
    ensures var d := dec(old(input[pos..pos + BLOCK]));
            output[..pos + BLOCK] == old(output[..pos]) + (Xor(d[..n], old(iv[..])) + d[n..])
    ensures forall k :: pos + BLOCK <= k < output.Length ==> output[k] == old(output[k])
    ensures forall k :: pos + BLOCK <= k < input.Length ==> input[k] == old(input[k])
  {
    var tmp: Block := input[pos..pos + BLOCK];
    ghost var before := output[..pos];
    StoreBlock(output, pos, dec(tmp));
    assert output[..pos] == before;
    XorInPlace(output, pos, n, iv, dec(tmp));
    StoreBlock(iv, 0, tmp);
    assert iv[..] == iv[0..0 + BLOCK];
  }

  /** One round of the decryption loop, and the partial block, on the specification. */
  lemma DecryptStep(c: seq<octet>, size: nat, pos: nat, done: seq<octet>, iv: Block, dec: Block -> Block)
    requires |c| == Padded(size) && pos < size && pos % BLOCK == 0 && pos + Padded(size - pos) == Padded(size)
    ensures var n := if size - pos < BLOCK then size - pos else BLOCK;
            && pos + BLOCK <= |c|
            && pos + BLOCK + Padded(size - (pos + n)) == Padded(size)
            && var b := c[pos..pos + BLOCK];
               var d := dec(b);
               && done + Decrypt(c[pos..], size - pos, iv, dec).0
                  == (done + (Xor(d[..n], iv) + d[n..])) + Decrypt(c[pos + BLOCK..], size - (pos + n), b, dec).0
               && Decrypt(c[pos..], size - pos, iv, dec).1 == Decrypt(c[pos + BLOCK..], size - (pos + n), b, dec).1
  {
    var n := if size - pos < BLOCK then size - pos else BLOCK;
    PaddedStep(size - pos, n);
    hide Padded, Xor;
    var b := c[pos..pos + BLOCK];
    DecryptUnfold(c[pos..], size - pos, iv, dec);
    hide Decrypt;
    assert c[pos..][..BLOCK] == b && c[pos..][BLOCK..] == c[pos + BLOCK..];
    var x := Xor(dec(b)[..n], iv) + dec(b)[n..];
    var rest := Decrypt(c[pos + BLOCK..], size - (pos + n), b, dec);
    assert done + (x + rest.0) == (done + x) + rest.0;
  }

  lemma PaddedStep(m: nat, n: nat)
    requires 0 < m && n == if m < BLOCK then m else BLOCK
    ensures Padded(m) == BLOCK + Padded(m - n)
    ensures Padded(0) == 0
  {
  }

  /** The other branch: it reads and writes a last partial block in full. */
  method DecryptCbc(input: array<octet>, output: array<octet>, size: nat, iv: array<octet>, dec: Block -> Block)
    requires iv != input && iv != output && iv.Length == BLOCK
    requires Padded(size) <= input.Length && Padded(size) <= output.Length
    modifies output, iv
    ensures (output[..Padded(size)], iv[..]) == Decrypt(old(input[..Padded(size)]), size, old(iv[..]), dec)
    ensures forall k :: Padded(size) <= k < output.Length ==> output[k] == old(output[k])
  {
    hide Decrypt, Xor, Padded;
    PaddedZero();
    ghost var c, o := input[..Padded(size)], output[..];
    ghost var goal := Decrypt(c, size, iv[..], dec);
    var pos := 0;
    assert output[..0] + Decrypt(c[0..], size, iv[..], dec).0 == goal.0 by { assert c[0..] == c; }
    while size - pos >= BLOCK
      invariant pos <= size && pos % BLOCK == 0 && pos + Padded(size - pos) == Padded(size)
      invariant forall k :: pos <= k < Padded(size) ==> input[k] == c[k]
      invariant forall k :: pos <= k < output.Length ==> output[k] == o[k]
      invariant output[..pos] + Decrypt(c[pos..], size - pos, iv[..], dec).0 == goal.0
      invariant Decrypt(c[pos..], size - pos, iv[..], dec).1 == goal.1
    {
      DecryptStep(c, size, pos, output[..pos], iv[..], dec);
      assert input[pos..pos + BLOCK] == c[pos..pos + BLOCK];
      DecryptBlock(input, output, pos, BLOCK, iv, dec);
      pos := pos + BLOCK;
    }
    ghost var end := pos;
    if size - pos > 0 {
      DecryptStep(c, size, pos, output[..pos], iv[..], dec);
      assert input[pos..pos + BLOCK] == c[pos..pos + BLOCK];
      DecryptBlock(input, output, pos, size - pos, iv, dec);
      end := pos + BLOCK;
    }
    NothingToDecrypt(c[end..], output[..end], iv[..], dec);
  }

  lemma NothingToDecrypt(c: seq<octet>, done: seq<octet>, iv: Block, dec: Block -> Block)
    requires c == []
    ensures Padded(0) == 0
    ensures done + Decrypt(c, 0, iv, dec).0 == done && Decrypt(c, 0, iv, dec).1 == iv
  {
  }

  /** In place, there and back: the text and the chaining value agree. */
  method EncryptThenDecryptInPlace(buf: array<octet>, size: nat, iv: array<octet>, iv': array<octet>,
    enc: Block -> Block, dec: Block -> Block)
    requires iv != buf && iv' != buf && iv != iv' && iv.Length == iv'.Length == BLOCK && iv[..] == iv'[..]
    requires size <= Padded(size) <= buf.Length && Inverse(enc, dec)
    modifies buf, iv, iv'
    ensures buf[..size] == old(buf[..size]) && iv'[..] == iv[..]
  {
    ghost var p := buf[..size];
    DecryptAfterEncrypt(p, iv[..], enc, dec);
    EncryptCbc(buf, buf, size, iv, enc);
    DecryptCbc(buf, buf, size, iv', dec);
    assert buf[..Padded(size)][..size] == buf[..size];
  }
}
