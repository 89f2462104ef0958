/** Cipher block chaining over any block cipher. */
module CbcSpec {
  // Section 6.2 of NIST SP 800-38A, with the padding of section 6.3 of RFC 5652.

  import opened Gf256

  type Bytes = seq<bv8>

  type Block = b: Bytes | |b| == 16 witness seq(16, _ => 0)

  /** d undoes e on every block. */
  ghost predicate Undoes(d: Block -> Block, e: Block -> Block) {
    forall b: Block :: d(e(b)) == b
  }

  function XorBytes(a: Bytes, b: Bytes): (r: Bytes)
    requires |a| == |b|
    ensures |r| == |a|
  {
    seq(|a|, i requires 0 <= i < |a| => Add(a[i], b[i]))
  }

  /** The exclusive or of two texts, byte by byte. */
  ghost predicate IsXor(r: Bytes, a: Bytes, b: Bytes) {
    |r| == |a| == |b| && forall n | 0 <= n < |r| :: r[n] == a[n] ^ b[n]
  }

  lemma XorBytesIsXor(a: Bytes, b: Bytes)
    requires |a| == |b|
    ensures IsXor(XorBytes(a, b), a, b)
  {}

  lemma XorBytesCancels(a: Bytes, b: Bytes)
    requires |a| == |b|
    ensures XorBytes(XorBytes(a, b), b) == a
  {
    hide Add;
    forall i | 0 <= i < |a| ensures Add(Add(a[i], b[i]), b[i]) == a[i] {
      Cancel(a[i], b[i]);
    }
  }

  /** The number of bytes that fill the last block up, and the value of each of them: 1 to 16. */
  function PadLength(n: nat): (k: nat)
    ensures 1 <= k <= 16 && (n + k) % 16 == 0
  {
    16 - n % 16
  }

  function Pad(p: Bytes): (r: Bytes)
    ensures |r| == |p| + PadLength(|p|)
  {
    p + seq(PadLength(|p|), _ => PadLength(|p|) as bv8)
  }

  ghost function EncryptBlocks(e: Block -> Block, iv: Block, p: Bytes): (c: Bytes)
    requires |p| % 16 == 0
    ensures |c| == |p|
    decreases |p|
  {
    if p == [] then []
    else
      var c := e(XorBytes(p[..16], iv));
      c + EncryptBlocks(e, c, p[16..])
  }

  /** The plaintext of the whole blocks of c. */
  ghost function DecryptBlocks(d: Block -> Block, iv: Block, c: Bytes): (p: Bytes)
    ensures |p| == |c| - |c| % 16
    decreases |c|
  {
    if |c| < 16 then []
    else XorBytes(d(c[..16]), iv) + DecryptBlocks(d, c[..16], c[16..])
  }

  /** The ciphertext of a plaintext of any length. */
  ghost function CbcEncrypt(e: Block -> Block, iv: Block, p: Bytes): Bytes {
    EncryptBlocks(e, iv, Pad(p))
  }

  /** The length that the last byte of a decrypted text announces, as the source computes it on unsigned ints. */
  function UnpaddedLength(d: Bytes): nat {
    if d == [] then 0 else (|d| - d[|d| - 1] as int) % 0x1_0000_0000
  }

  /** It is what the last byte leaves of the length, modulo 2^32. */
  lemma UnpaddedLengthIs(d: Bytes)
    requires d != []
    ensures UnpaddedLength(d) < 0x1_0000_0000
    ensures (UnpaddedLength(d) + d[|d| - 1] as int) % 0x1_0000_0000 == |d| % 0x1_0000_0000
  {
    var last := d[|d| - 1] as int;
    assert 0 <= last < 256;
    AddModulo(|d| - last, last);
  }

  lemma AddModulo(a: int, b: nat)
    requires b < 0x1_0000_0000
    ensures (a % 0x1_0000_0000 + b) % 0x1_0000_0000 == (a + b) % 0x1_0000_0000
  {}

  lemma {:induction false} DecryptBlocksUndoes(e: Block -> Block, d: Block -> Block, iv: Block, p: Bytes)
    requires Undoes(d, e) && |p| % 16 == 0
    ensures DecryptBlocks(d, iv, EncryptBlocks(e, iv, p)) == p
    decreases |p|
  {
    hide XorBytes;
    if p != [] {
      assert 16 <= |p|;
      var x: Block := XorBytes(p[..16], iv);
      var c: Block := e(x);
      var rest := EncryptBlocks(e, c, p[16..]);
      assert (c + rest)[..16] == c && (c + rest)[16..] == rest;
      XorBytesCancels(p[..16], iv);
      DecryptBlocksUndoes(e, d, c, p[16..]);
      assert p[..16] + p[16..] == p;
    }
  }

  /** The block that the one behind c is chained to. */
  ghost function ChainBlock(iv: Block, c: Bytes): Block {
    if |c| < 16 then iv else c[|c| - 16..]
  }

  lemma DecryptBlocksStep(d: Block -> Block, iv: Block, c: Bytes)
    requires 16 <= |c|
    ensures DecryptBlocks(d, iv, c) == XorBytes(d(c[..16]), iv) + DecryptBlocks(d, c[..16], c[16..])
  {}

  lemma DecryptNothing(d: Block -> Block, iv: Block, c: Bytes)
    requires |c| == 0
    ensures DecryptBlocks(d, iv, c) == []
  {}

  /** One more block of ciphertext. */
  lemma {:induction false} DecryptBlocksAppend(d: Block -> Block, iv: Block, a: Bytes, b: Block)
    requires |a| % 16 == 0
    ensures DecryptBlocks(d, iv, a + b) == DecryptBlocks(d, iv, a) + XorBytes(d(b), ChainBlock(iv, a))
    decreases |a|
  {
    hide DecryptBlocks, XorBytes;
    DecryptBlocksStep(d, iv, a + b);
    if |a| < 16 {
      assert a == [] && (a + b)[..16] == b && (a + b)[16..] == [];
      DecryptNothing(d, b, []);
      DecryptNothing(d, iv, a);
    } else {
      var a0: Block, a1 := a[..16], a[16..];
      assert a == a0 + a1 && (a + b)[..16] == a0 && (a + b)[16..] == a1 + b;
      DecryptBlocksStep(d, iv, a);
      DecryptBlocksAppend(d, a0, a1, b);
      assert ChainBlock(a0, a1) == ChainBlock(iv, a);
    }
  }

  /** The length of the whole blocks that hold n bytes. */
  function WholeLength(n: nat): (k: nat)
    ensures n <= k < n + 16 && k % 16 == 0
  {
    (n + 15) / 16 * 16
  }

  lemma ByteOfSmall(k: nat)
    requires k <= 16
    ensures (k as bv8) as int == k
  {}

  /** The length that encryption announces: length + paddingLen on unsigned ints. */
  function CipherLength(n: nat): nat {
    (n + PadLength(n)) % 0x1_0000_0000
  }

  /** The first n bytes of c decrypt to a text that starts with p and announces its length. */
  ghost predicate Restores(d: Block -> Block, iv: Block, c: Bytes, n: nat, p: Bytes)
    requires n <= |c|
  {
    var r := DecryptBlocks(d, iv, c[..n]);
    |p| <= |r| && r[..|p|] == p && UnpaddedLength(r) == |p|
  }

  /** The announced length is that of the ciphertext, unless the plaintext is in its last sixteen bytes before 2^32:
      then it is 0. */
  lemma CipherLengthHolds(n: nat)
    requires n < 0x1_0000_0000
    ensures if n < 0xFFFF_FFF0 then CipherLength(n) == n + PadLength(n) else CipherLength(n) == 0
  {}

  lemma PaddedRestores(d: Block -> Block, iv: Block, c: Bytes, p: Bytes)
    requires DecryptBlocks(d, iv, c) == Pad(p) && |p| < 0x1_0000_0000 && |c| == |Pad(p)|
    ensures Restores(d, iv, c, |c|, p)
  {
    hide PadLength, DecryptBlocks;
    assert c[..|c|] == c;
    ByteOfSmall(PadLength(|p|));
  }

  /** The ciphertext takes the least number of whole blocks that is strictly longer than the plaintext. Decrypting as
      many bytes of it as encryption announces gives back the plaintext and its length, if and only if the plaintext is
      shorter than 2^32 - 16 bytes. */
  lemma CbcRoundTrip(e: Block -> Block, d: Block -> Block, iv: Block, p: Bytes)
    requires Undoes(d, e) && |p| < 0x1_0000_0000
    ensures var c := CbcEncrypt(e, iv, p);
      && |c| % 16 == 0 && |p| < |c| <= |p| + 16
      && CipherLength(|p|) <= |c| && DecryptBlocks(d, iv, c) == Pad(p)
      && (Restores(d, iv, c, CipherLength(|p|), p) <==> |p| < 0xFFFF_FFF0)
  {
    hide PadLength, CipherLength;
    CipherLengthHolds(|p|);
    DecryptBlocksUndoes(e, d, iv, Pad(p));
    PaddedRestores(d, iv, CbcEncrypt(e, iv, p), p);
  }

  // ---- block by block ----

  /** The padding: up to the next multiple of 16, each byte the number of its bytes. */
  lemma PadIs(p: Bytes)
    ensures |Pad(p)| % 16 == 0 && |p| < |Pad(p)| <= |p| + 16 && Pad(p)[..|p|] == p
    ensures forall n | |p| <= n < |Pad(p)| :: Pad(p)[n] as int == |Pad(p)| - |p|
  {
    ByteOfSmall(PadLength(|p|));
  }

  /** The block of a text that a block is chained to: the one before it, or iv. */
  function BlockBefore(iv: Block, c: Bytes, j: nat): Block
    requires 16 * j <= |c|
  {
    if j == 0 then iv else c[16 * (j - 1)..16 * j]
  }

  lemma {:induction false} BlockEncrypted(e: Block -> Block, iv: Block, p: Bytes, j: nat) returns (x: Block)
    requires |p| % 16 == 0 && 16 * j + 16 <= |p|
    ensures IsXor(x, p[16 * j..16 * j + 16], BlockBefore(iv, EncryptBlocks(e, iv, p), j))
    ensures EncryptBlocks(e, iv, p)[16 * j..16 * j + 16] == e(x)
    decreases j
  {
    hide XorBytes, IsXor;
    var first := XorBytes(p[..16], iv);
    var c := EncryptBlocks(e, iv, p);
    var rest := EncryptBlocks(e, e(first), p[16..]);
    assert c == e(first) + rest;
    if j == 0 {
      x := first;
      XorBytesIsXor(p[..16], iv);
      assert p[0..16] == p[..16] && c[0..16] == e(first);
    } else {
      x := BlockEncrypted(e, e(first), p[16..], j - 1);
      assert p[16..][16 * (j - 1)..16 * j] == p[16 * j..16 * j + 16];
      assert rest[16 * (j - 1)..16 * j] == c[16 * j..16 * j + 16];
      assert j > 1 ==> rest[16 * (j - 2)..16 * (j - 1)] == c[16 * (j - 1)..16 * j];
      assert j == 1 ==> c[0..16] == e(first);
    }
  }

  /** Each block of the ciphertext is the cipher of the exclusive or of the padded plaintext's block and the block of
      ciphertext before it, or the IV. */
  lemma CbcBlock(e: Block -> Block, iv: Block, p: Bytes, j: nat) returns (x: Block)
    requires 16 * j + 16 <= |Pad(p)|
    ensures IsXor(x, Pad(p)[16 * j..16 * j + 16], BlockBefore(iv, CbcEncrypt(e, iv, p), j))
    ensures CbcEncrypt(e, iv, p)[16 * j..16 * j + 16] == e(x)
  {
    hide IsXor, EncryptBlocks, Pad;
    PadIs(p);
    x := BlockEncrypted(e, iv, Pad(p), j);
  }

  /** Each block of the plaintext is the exclusive or of the deciphered block and the block of ciphertext before it, or
      the IV, whatever the ciphertext is. */
  lemma {:induction false} BlockDecrypted(d: Block -> Block, iv: Block, c: Bytes, j: nat)
    requires 16 * j + 16 <= |c|
    ensures |DecryptBlocks(d, iv, c)| >= 16 * j + 16
    ensures IsXor(DecryptBlocks(d, iv, c)[16 * j..16 * j + 16], d(c[16 * j..16 * j + 16]), BlockBefore(iv, c, j))
    decreases j
  {
    hide XorBytes, IsXor;
    var first: Block := c[..16];
    var p := DecryptBlocks(d, iv, c);
    var rest := DecryptBlocks(d, first, c[16..]);
    assert p == XorBytes(d(first), iv) + rest;
    if j == 0 {
      XorBytesIsXor(d(first), iv);
      assert c[0..16] == first && p[0..16] == XorBytes(d(first), iv);
    } else {
      BlockDecrypted(d, first, c[16..], j - 1);
      assert c[16..][16 * (j - 1)..16 * j] == c[16 * j..16 * j + 16];
      assert rest[16 * (j - 1)..16 * j] == p[16 * j..16 * j + 16];
      assert j > 1 ==> c[16..][16 * (j - 2)..16 * (j - 1)] == c[16 * (j - 1)..16 * j];
      assert j == 1 ==> c[0..16] == first;
    }
  }

  // ---- how the loops build these texts ----

  /** Dropping the first block leaves the padding alone. */
  lemma PadStep(p: Bytes)
    requires 16 <= |p|
    ensures Pad(p)[..16] == p[..16] && Pad(p)[16..] == Pad(p[16..])
  {
    assert PadLength(|p|) == PadLength(|p| - 16);
  }

  /** One whole block of plaintext, then the rest. */
  lemma CbcEncryptStep(e: Block -> Block, iv: Block, p: Bytes)
    requires 16 <= |p|
    ensures var c := e(XorBytes(p[..16], iv)); CbcEncrypt(e, iv, p) == c + CbcEncrypt(e, c, p[16..])
  {
    hide XorBytes, Pad;
    PadStep(p);
  }

  lemma PadOfShort(p: Bytes)
    requires |p| < 16
    ensures Pad(p) == p + seq(16 - |p|, _ => (16 - |p|) as bv8)
  {
    assert PadLength(|p|) == 16 - |p|;
  }

  /** The last block: what is left of the plaintext, and the padding. */
  lemma CbcEncryptLast(e: Block -> Block, iv: Block, p: Bytes)
    requires |p| < 16
    ensures |Pad(p)| == 16 && CbcEncrypt(e, iv, p) == e(XorBytes(Pad(p), iv))
  {
    hide XorBytes;
    assert Pad(p)[..16] == Pad(p);
    assert EncryptBlocks(e, e(XorBytes(Pad(p), iv)), Pad(p)[16..]) == [];
  }
}
