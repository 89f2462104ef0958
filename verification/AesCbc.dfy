/** The CBC mode of src/aes/aes_cbc.c. A pointer into a buffer is an array and an index, and a loop that moves
    pointers is one that moves indices; the buffers for input and output may be the same. */
module AesCbc {
  import opened Buffers
  import opened Gf256
  import opened Fips197
  import opened AesCore
  import opened AesCipher
  import opened AesKeySchedule
  import opened CbcSpec

  /** The cipher under a schedule, on bytes. */
  ghost function Encipher(w: seq<Column>, nr: nat): Block -> Block
    requires IsSchedule(w, nr)
  {
    (b: Block) => BytesOf(Cipher(StateOf(b), w, nr))
  }

  /** The equivalent inverse cipher under a schedule, on bytes. */
  ghost function Decipher(dw: seq<Column>, nr: nat): Block -> Block
    requires IsSchedule(dw, nr)
  {
    (b: Block) => BytesOf(EqInvCipher(StateOf(b), dw, nr))
  }

  /** Decrypting a block with the decryption schedule of the same key gives the block back. */
  lemma DecipherUndoesEncipher(w: seq<Column>, nr: nat)
    requires IsSchedule(w, nr)
    ensures Undoes(Decipher(InverseSchedule(w, nr), nr), Encipher(w, nr))
  {
    hide Cipher, EqInvCipher, InverseSchedule, StateOf, BytesOf;
    forall b: Block ensures Decipher(InverseSchedule(w, nr), nr)(Encipher(w, nr)(b)) == b {
      StateOfBytesOf(Cipher(StateOf(b), w, nr));
      EqInvCipherUndoesCipher(StateOf(b), w, nr);
      BytesOfStateOf(b);
    }
  }

  method EncryptBlockAt(inp: array<bv8>, i: nat, out: array<bv8>, o: nat, key: AesKey)
    requires i + 16 <= inp.Length && o + 16 <= out.Length && key.Ready()
    modifies out
    ensures key.Schedule() == old(key.Schedule())
    ensures out[..] == Splice(old(out[..]), o, Encipher(key.Schedule(), key.rounds)(old(Slice(inp[..], i, 16))))
  {
    hide Cipher, StateOf, BytesOf, Splice, Slice, Unpacked;
    AesEncrypt(inp, i, out, o, key);
  }

  method DecryptBlockAt(inp: array<bv8>, i: nat, out: array<bv8>, o: nat, key: AesKey)
    requires i + 16 <= inp.Length && o + 16 <= out.Length && key.Ready()
    modifies out
    ensures key.Schedule() == old(key.Schedule())
    ensures out[..] == Splice(old(out[..]), o, Decipher(key.Schedule(), key.rounds)(old(Slice(inp[..], i, 16))))
  {
    hide EqInvCipher, StateOf, BytesOf, Splice, Slice, Unpacked;
    AesDecrypt(inp, i, out, o, key);
  }

  lemma SplicedXor(r: Bytes, was: Bytes, o: nat, a: Bytes, b: Bytes)
    requires |a| == |b| && o + |a| <= |was| && r == Splice(was, o, XorBytes(a, b))
    ensures IsXor(r[o..o + |a|], a, b)
  {
    XorBytesIsXor(a, b);
    hide XorBytes, Splice, IsXor;
  }

  lemma XorPrefix(a: Bytes, b: Bytes, n: nat)
    requires n <= |a| == |b|
    ensures XorBytes(a, b)[..n] == XorBytes(a[..n], b[..n])
  {
    hide Add;
  }

  /** One block of output is the exclusive or of input and chaining block; from len on, the pad byte stands for the
      input. The output may be the input itself, and iv may point at an earlier block of it. */
  method XorInto(inp: array<bv8>, i: nat, len: nat, pad: bv8, iv: array<bv8>, v: nat, out: array<bv8>, o: nat)
    requires len <= 16 && i + len <= inp.Length && v + 16 <= iv.Length && o + 16 <= out.Length
    requires inp == out ==> i == o
    requires iv == out ==> v + 16 <= o
    modifies out
    ensures out[..] == Splice(old(out[..]), o,
                              XorBytes(old(inp[i..i + len]) + seq(16 - len, _ => pad), old(Slice(iv[..], v, 16))))
    ensures IsXor(out[o..o + 16], old(inp[i..i + len]) + seq(16 - len, _ => pad), old(Slice(iv[..], v, 16)))
  {
    hide Add, Splice, IsXor;
    ghost var was := out[..];
    ghost var x := inp[i..i + len] + seq(16 - len, _ => pad);
    ghost var y := Slice(iv[..], v, 16);
    for n := 0 to len
      invariant forall k | o <= k < o + n :: out[k] == Add(x[k - o], y[k - o])
      invariant forall k | 0 <= k < out.Length && !(o <= k < o + n) :: out[k] == was[k]
    {
      assert inp[i + n] == x[n] && iv[v + n] == y[n];
      out[o + n] := Add(inp[i + n], iv[v + n]);
    }
    for n := len to 16
      invariant forall k | o <= k < o + n :: out[k] == Add(x[k - o], y[k - o])
      invariant forall k | 0 <= k < out.Length && !(o <= k < o + n) :: out[k] == was[k]
    {
      assert pad == x[n] && iv[v + n] == y[n];
      out[o + n] := Add(pad, iv[v + n]);
    }
    SpliceIs(was, o, XorBytes(x, y), out[..]);
    SplicedXor(out[..], was, o, x, y);
  }

  /** One block of encryption: XorInto, then the cipher in place. */
  method EncryptXored(inp: array<bv8>, i: nat, len: nat, pad: bv8, iv: array<bv8>, v: nat, out: array<bv8>, o: nat,
                      key: AesKey)
    requires len <= 16 && i + len <= inp.Length && v + 16 <= iv.Length && o + 16 <= out.Length
    requires inp == out ==> i == o
    requires iv == out ==> v + 16 <= o
    requires key.Ready()
    modifies out
    ensures key.Schedule() == old(key.Schedule())
    ensures out[..] == Splice(old(out[..]), o, Encipher(key.Schedule(), key.rounds)(
                              XorBytes(old(inp[i..i + len]) + seq(16 - len, _ => pad), old(Slice(iv[..], v, 16)))))
  {
    hide Encipher, Unpacked, XorBytes;
    ghost var x := XorBytes(inp[i..i + len] + seq(16 - len, _ => pad), Slice(iv[..], v, 16));
    ghost var e := Encipher(key.Schedule(), key.rounds);
    XorInto(inp, i, len, pad, iv, v, out, o);
    EncryptBlockAt(out, o, out, o, key);
    SpliceOver(old(out[..]), o, x, e(x));
  }

  /** memcpy of one block into a local buffer. */
  method CopyFrom(a: array<bv8>, i: nat) returns (b: array<bv8>)
    requires i + 16 <= a.Length
    ensures fresh(b) && b.Length == 16 && b[..] == Slice(a[..], i, 16)
  {
    b := new bv8[16];
    for n := 0 to 16
      invariant forall k | 0 <= k < n :: b[k] == a[i + k]
    {
      b[n] := a[i + n];
    }
  }

  /** Where a loop stands at index pos of both buffers: the output holds what is done and, behind it, what was there
      before; the rest of the input is still to be read; iv and v point at the block to chain next, which the coming
      write at pos leaves alone. */
  ghost predicate Progress(inp: array<bv8>, out: array<bv8>, pos: nat, iv: array<bv8>, v: nat,
                           was: Bytes, done: Bytes, rest: Bytes, block: Block)
    reads inp, out, iv
  {
    && |was| == out.Length && |done| == pos && pos + |rest| <= |was| && out[..] == done + was[pos..]
    && pos + |rest| <= inp.Length && inp[pos..pos + |rest|] == rest
    && v + 16 <= iv.Length && Slice(iv[..], v, 16) == block
    && (iv == out ==> v + 16 == pos)
  }

  /** One pass of the encryption loop. */
  method EncryptNext(inp: array<bv8>, out: array<bv8>, pos: nat, key: AesKey, iv: array<bv8>, v: nat,
                     ghost was: Bytes, ghost done: Bytes, ghost rest: Bytes, ghost block: Block)
      returns (ghost next: Block)
    requires Progress(inp, out, pos, iv, v, was, done, rest, block) && 16 <= |rest| && key.Ready()
    modifies out
    ensures key.Schedule() == old(key.Schedule())
    ensures next == Encipher(key.Schedule(), key.rounds)(XorBytes(rest[..16], block))
    ensures Progress(inp, out, pos + 16, out, pos, was, done + next, rest[16..], next)
  {
    hide Encipher, Unpacked, XorBytes, Splice, Slice;
    assert inp[pos..pos + 16] + [] == rest[..16];
    next := Encipher(key.Schedule(), key.rounds)(XorBytes(rest[..16], block));
    SpliceAtEnd(done, was, pos, next);
    EncryptXored(inp, pos, 16, 0, iv, v, out, pos, key);
    if inp == out {
      assert rest[16..] == was[pos + 16..pos + |rest|];
    }
  }

  /** Before the first block. */
  lemma NoProgress(inp: array<bv8>, out: array<bv8>, iv: array<bv8>, length: nat)
    requires length <= inp.Length && length <= out.Length && iv.Length == 16 && iv != out
    ensures Progress(inp, out, 0, iv, 0, out[..], [], inp[..length], iv[..])
  {}

  /** The while loop of the encryption branch: the whole blocks of the plaintext. */
  method EncryptWholeBlocks(inp: array<bv8>, out: array<bv8>, length: nat, key: AesKey, tempIv: array<bv8>)
      returns (pos: nat, iv: array<bv8>, v: nat, ghost done: Bytes, ghost rest: Bytes, ghost block: Block)
    requires length <= inp.Length && length <= out.Length
    requires tempIv.Length == 16 && tempIv != out && key.Ready()
    modifies out
    ensures key.Schedule() == old(key.Schedule())
    ensures |rest| == length % 16 && Progress(inp, out, pos, iv, v, old(out[..]), done, rest, block)
    ensures pos + |rest| == length
    ensures var e := Encipher(key.Schedule(), key.rounds);
      CbcEncrypt(e, old(tempIv[..]), old(inp[..length])) == done + CbcEncrypt(e, block, rest)
  {
    hide *;
    ghost var e := Encipher(key.Schedule(), key.rounds);
    ghost var all := CbcEncrypt(e, tempIv[..], inp[..length]);
    iv, v := tempIv, 0;
    pos := 0;
    var len := length;
    done, rest, block := [], inp[..length], tempIv[..];
    NoProgress(inp, out, iv, length);
    while len >= 16
      invariant pos + len == length && len % 16 == length % 16 && |rest| == len
      invariant Progress(inp, out, pos, iv, v, old(out[..]), done, rest, block)
      invariant key.Schedule() == old(key.Schedule())
      invariant all == done + CbcEncrypt(e, block, rest)
    {
      CbcEncryptStep(e, block, rest);
      block := EncryptNext(inp, out, pos, key, iv, v, old(out[..]), done, rest, block);
      assert all == done + block + CbcEncrypt(e, block, rest[16..]);
      done, rest := done + block, rest[16..];
      iv, v := out, pos;
      len, pos := len - 16, pos + 16;
    }
  }

  /** The encryption branch of AES_cbc_core. The output may be the input buffer. */
  method CbcCoreEncrypt(inp: array<bv8>, out: array<bv8>, length: nat, key: AesKey, ivec: array<bv8>)
      returns (outLength: nat)
    requires length <= inp.Length && length + PadLength(length) <= out.Length && 16 <= ivec.Length && key.Ready()
    modifies out
    ensures key.Schedule() == old(key.Schedule())
    ensures outLength == CipherLength(length)
    ensures out[..] == CbcEncrypt(Encipher(key.Schedule(), key.rounds), old(ivec[..16]), old(inp[..length]))
                     + old(out[length + PadLength(length)..])
  {
    hide Encipher, Unpacked, XorBytes, CbcEncrypt, Pad, Splice, AesKey.Schedule;
    ghost var e := Encipher(key.Schedule(), key.rounds);
    ghost var was := out[..];
    var tempIv := CopyFrom(ivec, 0);
    var pos, iv, v, done, rest, block := EncryptWholeBlocks(inp, out, length, key, tempIv);
    var len := length - pos;
    CbcEncryptLast(e, block, rest);
    PadOfShort(rest);
    assert inp[pos..pos + len] == rest;
    SpliceAtEnd(done, was, pos, e(XorBytes(Pad(rest), block)));
    EncryptXored(inp, pos, len, (16 - len) as bv8, iv, v, out, pos, key);
    outLength := (length + (16 - len)) % 0x1_0000_0000;
  }

  /** One block of decryption: the inverse cipher, then XorInto in place. */
  method DecryptXored(inp: array<bv8>, i: nat, iv: array<bv8>, v: nat, out: array<bv8>, o: nat, key: AesKey)
    requires i + 16 <= inp.Length && v + 16 <= iv.Length && o + 16 <= out.Length && iv != out && key.Ready()
    modifies out
    ensures key.Schedule() == old(key.Schedule())
    ensures out[..] == Splice(old(out[..]), o,
      XorBytes(Decipher(key.Schedule(), key.rounds)(old(Slice(inp[..], i, 16))), Slice(iv[..], v, 16)))
  {
    hide Decipher, Unpacked, XorBytes;
    ghost var x := Decipher(key.Schedule(), key.rounds)(Slice(inp[..], i, 16));
    DecryptBlockAt(inp, i, out, o, key);
    assert out[o..o + 16] + [] == x;
    XorInto(out, o, 16, 0, iv, v, out, o);
    SpliceOver(old(out[..]), o, x, XorBytes(x, Slice(iv[..], v, 16)));
  }

  /** One pass of the decryption loop between two buffers. */
  method DecryptNext(inp: array<bv8>, out: array<bv8>, pos: nat, key: AesKey, iv: array<bv8>, v: nat,
                     ghost was: Bytes, ghost done: Bytes, ghost rest: Bytes, ghost block: Block)
      returns (ghost next: Block)
    requires Progress(inp, out, pos, iv, v, was, done, rest, block) && 16 <= |rest| && key.Ready()
    requires inp != out && iv != out
    modifies out
    ensures key.Schedule() == old(key.Schedule())
    ensures next == XorBytes(Decipher(key.Schedule(), key.rounds)(rest[..16]), block)
    ensures Progress(inp, out, pos + 16, inp, pos, was, done + next, rest[16..], rest[..16])
  {
    hide Decipher, Unpacked, XorBytes, Splice;
    assert Slice(inp[..], pos, 16) == rest[..16];
    next := XorBytes(Decipher(key.Schedule(), key.rounds)(rest[..16]), block);
    SpliceAtEnd(done, was, pos, next);
    DecryptXored(inp, pos, iv, v, out, pos, key);
  }

  /** One pass of the decryption loop within one buffer: the ciphertext block is saved, and ivec takes it over. */
  method DecryptNextInPlace(buf: array<bv8>, pos: nat, key: AesKey, ivec: array<bv8>,
                            ghost was: Bytes, ghost done: Bytes, ghost rest: Bytes, ghost block: Block)
      returns (ghost next: Block)
    requires Progress(buf, buf, pos, ivec, 0, was, done, rest, block) && 16 <= |rest| && key.Ready()
    requires ivec != buf && ivec.Length == 16
    modifies buf, ivec
    ensures key.Schedule() == old(key.Schedule())
    ensures next == XorBytes(Decipher(key.Schedule(), key.rounds)(rest[..16]), block)
    ensures Progress(buf, buf, pos + 16, ivec, 0, was, done + next, rest[16..], rest[..16])
  {
    hide Decipher, Unpacked, XorBytes, Splice;
    assert Slice(buf[..], pos, 16) == rest[..16];
    next := XorBytes(Decipher(key.Schedule(), key.rounds)(rest[..16]), block);
    SpliceAtEnd(done, was, pos, next);
    var tmp := CopyFrom(buf, pos);
    DecryptXored(buf, pos, ivec, 0, buf, pos, key);
    assert rest[16..] == was[pos + 16..pos + |rest|];
    for n := 0 to 16
      invariant buf[..] == done + next + was[pos + 16..] && tmp[..] == rest[..16]
      invariant forall k | 0 <= k < n :: ivec[k] == tmp[k]
    {
      ivec[n] := tmp[n];
    }
    assert ivec[..] == tmp[..];
  }

  /** The length that the last plaintext byte announces: length - *(out - 1) on unsigned ints. */
  method AnnouncedLength(out: array<bv8>, length: nat) returns (outLength: nat)
    requires 0 < length <= out.Length
    ensures outLength == UnpaddedLength(out[..length])
  {
    outLength := (length - out[length - 1] as int) % 0x1_0000_0000;
  }

  /** The length of the whole blocks among n bytes. */
  function WholePart(n: nat): (k: nat)
    ensures k <= n < k + 16 && k % 16 == 0
  {
    n - n % 16
  }

  lemma BlocksLeft(n: nat, pos: nat)
    requires pos % 16 == 0 && pos <= n
    ensures if n - pos >= 16 then pos + 16 <= WholePart(n) else pos == WholePart(n)
  {}

  /** One more block of the text. */
  lemma DecryptedNext(d: Block -> Block, iv: Block, text: Bytes, pos: nat)
    requires pos % 16 == 0 && pos + 16 <= |text|
    ensures DecryptBlocks(d, iv, text[..pos + 16])
         == DecryptBlocks(d, iv, text[..pos]) + XorBytes(d(text[pos..pos + 16]), ChainBlock(iv, text[..pos]))
    ensures ChainBlock(iv, text[..pos + 16]) == text[pos..pos + 16]
  {
    hide DecryptBlocks, XorBytes;
    assert text[..pos + 16] == text[..pos] + text[pos..pos + 16];
    DecryptBlocksAppend(d, iv, text[..pos], text[pos..pos + 16]);
  }

  lemma DecryptedNone(d: Block -> Block, iv: Block, text: Bytes)
    ensures DecryptBlocks(d, iv, text[..0]) == [] && ChainBlock(iv, text[..0]) == iv
  {}

  /** The loop of the decryption branch between two buffers: the whole blocks. */
  method DecryptWholeBlocks(inp: array<bv8>, out: array<bv8>, length: nat, key: AesKey, tempIv: array<bv8>)
      returns (pos: nat, iv: array<bv8>, v: nat)
    requires length <= inp.Length && length <= out.Length
    requires inp != out && tempIv.Length == 16 && tempIv != out && key.Ready()
    modifies out
    ensures key.Schedule() == old(key.Schedule()) && pos == WholePart(length)
    ensures iv != out && v + 16 <= iv.Length && Slice(iv[..], v, 16) == ChainBlock(tempIv[..], inp[..pos])
    ensures out[..] == DecryptBlocks(Decipher(key.Schedule(), key.rounds), tempIv[..], inp[..pos]) + old(out[pos..])
  {
    hide Decipher, Unpacked, XorBytes, DecryptBlocks, ChainBlock, WholePart;
    ghost var d, text, was := Decipher(key.Schedule(), key.rounds), inp[..], out[..];
    ghost var whole := WholePart(length);
    BlocksLeft(length, 0);
    ghost var iv0: Block := tempIv[..];
    iv, v, pos := tempIv, 0, 0;
    var len := length;
    DecryptedNone(d, iv0, text);
    while len >= 16
      invariant pos + len == length && pos % 16 == 0 && (if len >= 16 then pos + 16 <= whole else pos == whole)
      invariant text == inp[..] && iv0 == tempIv[..]
      invariant iv != out && key.Schedule() == old(key.Schedule())
      invariant Progress(inp, out, pos, iv, v, was, DecryptBlocks(d, iv0, text[..pos]), text[pos..whole],
                         ChainBlock(iv0, text[..pos]))
    {
      hide Progress;
      DecryptedNext(d, iv0, text, pos);
      assert text[pos..whole][..16] == text[pos..pos + 16] && text[pos..whole][16..] == text[pos + 16..whole];
      ghost var next := DecryptNext(inp, out, pos, key, iv, v, was, DecryptBlocks(d, iv0, text[..pos]),
        text[pos..whole], ChainBlock(iv0, text[..pos]));
      iv, v := inp, pos;
      len, pos := len - 16, pos + 16;
      BlocksLeft(length, pos);
    }
    assert text[..pos] == inp[..pos];
  }

  /** The first len bytes of a block of output are the exclusive or of the decrypted block and the chaining block. */
  method XorSome(tmp: array<bv8>, len: nat, iv: array<bv8>, v: nat, out: array<bv8>, o: nat)
    requires tmp.Length == 16 && len <= 16 && v + 16 <= iv.Length && o + len <= out.Length && tmp != out && iv != out
    modifies out
    ensures out[..] == Splice(old(out[..]), o, XorBytes(tmp[..], Slice(iv[..], v, 16))[..len])
    ensures IsXor(out[o..o + len], tmp[..len], Slice(iv[..], v, len))
  {
    hide Add, Splice, IsXor;
    ghost var was := out[..];
    for n := 0 to len
      invariant forall k | o <= k < o + n :: out[k] == Add(tmp[k - o], iv[v + (k - o)])
      invariant forall k | 0 <= k < out.Length && !(o <= k < o + n) :: out[k] == was[k]
    {
      out[o + n] := Add(tmp[n], iv[v + n]);
    }
    SpliceIs(was, o, XorBytes(tmp[..], Slice(iv[..], v, 16))[..len], out[..]);
    assert Slice(iv[..], v, len) == Slice(iv[..], v, 16)[..len];
    XorPrefix(tmp[..], Slice(iv[..], v, 16), len);
    SplicedXor(out[..], was, o, tmp[..len], Slice(iv[..], v, len));
  }

  /** A last ciphertext block of which only the first len bytes of plaintext are wanted. */
  method DecryptRest(inp: array<bv8>, out: array<bv8>, pos: nat, len: nat, key: AesKey, iv: array<bv8>, v: nat)
    requires 0 < len < 16 && pos + 16 <= inp.Length && pos + len <= out.Length && v + 16 <= iv.Length
    requires inp != out && iv != out && key.Ready()
    modifies out
    ensures key.Schedule() == old(key.Schedule())
    ensures out[..] == Splice(old(out[..]), pos,
      XorBytes(Decipher(key.Schedule(), key.rounds)(Slice(inp[..], pos, 16)), Slice(iv[..], v, 16))[..len])
  {
    hide Decipher, Unpacked, XorBytes, Splice, Slice;
    var tmp := new bv8[16](_ => 0);
    ghost var was := tmp[..];
    ghost var x := Decipher(key.Schedule(), key.rounds)(Slice(inp[..], pos, 16));
    DecryptBlockAt(inp, pos, tmp, 0, key);
    assert tmp[..] == Splice(was, 0, x)[0..0 + |x|];
    XorSome(tmp, len, iv, v, out, pos);
  }

  /** A write of the front of the last block behind what is done. */
  lemma PartialEnd(done: Bytes, was: Bytes, pos: nat, b: Block, length: nat)
    requires |done| == pos && pos < length < pos + 16 && length <= |was|
    ensures Splice(done + was[pos..], pos, b[..length - pos]) == (done + b)[..length] + was[length..]
  {
    SpliceAtEnd(done, was, pos, b[..length - pos]);
    assert (done + b)[..length] == done + b[..length - pos];
  }

  /** The plaintext of length bytes of ciphertext, of which the last block may lie only partly within that length. */
  ghost function Plain(d: Block -> Block, iv: Block, text: Bytes, length: nat): (p: Bytes)
    requires WholeLength(length) <= |text|
    ensures |p| == length
  {
    DecryptBlocks(d, iv, text[..WholeLength(length)])[..length]
  }

  /** Every byte of the plaintext, in a whole block or in one that lies only partly within the length. */
  lemma PlainByte(d: Block -> Block, iv: Block, text: Bytes, length: nat, i: nat)
    requires WholeLength(length) <= |text| && i < length
    ensures var j, n := i / 16, i % 16;
      && 16 * j + 16 <= |text|
      && Plain(d, iv, text, length)[i] == d(text[16 * j..16 * j + 16])[n] ^ BlockBefore(iv, text, j)[n]
  {
    var j, c := i / 16, text[..WholeLength(length)];
    BlockDecrypted(d, iv, c, j);
    var p := DecryptBlocks(d, iv, c);
    assert c[16 * j..16 * j + 16] == text[16 * j..16 * j + 16] && BlockBefore(iv, c, j) == BlockBefore(iv, text, j);
    hide DecryptBlocks, BlockBefore;
    assert p[16 * j..16 * j + 16][i % 16] == p[i];
  }

  lemma PlainWhole(d: Block -> Block, iv: Block, text: Bytes, length: nat)
    requires length % 16 == 0 && length <= |text|
    ensures WholeLength(length) == length && Plain(d, iv, text, length) == DecryptBlocks(d, iv, text[..length])
  {}

  lemma PlainPartly(d: Block -> Block, iv: Block, text: Bytes, length: nat)
    requires length % 16 != 0 && WholeLength(length) <= |text|
    ensures var pos := WholePart(length);
      && WholeLength(length) == pos + 16
      && Plain(d, iv, text, length)
         == (DecryptBlocks(d, iv, text[..pos])
             + XorBytes(d(text[pos..pos + 16]), ChainBlock(iv, text[..pos])))[..length]
  {
    hide XorBytes, DecryptBlocks, ChainBlock;
    DecryptedNext(d, iv, text, WholePart(length));
  }

  /** The decryption branch of AES_cbc_core between two buffers. */
  method CbcCoreDecrypt(inp: array<bv8>, out: array<bv8>, length: nat, key: AesKey, ivec: array<bv8>)
      returns (outLength: nat)
    requires 0 < length && WholeLength(length) <= inp.Length && length <= out.Length
    requires inp != out && 16 <= ivec.Length && key.Ready()
    modifies out
    ensures key.Schedule() == old(key.Schedule())
    ensures var p := Plain(Decipher(key.Schedule(), key.rounds), old(ivec[..16]), old(inp[..]), length);
      outLength == UnpaddedLength(p) && out[..] == p + old(out[length..])
  {
    hide Decipher, Unpacked, UnpaddedLength, DecryptBlocks, XorBytes, Plain, ChainBlock, Splice;
    ghost var d, block := Decipher(key.Schedule(), key.rounds), ivec[..16];
    var tempIv := CopyFrom(ivec, 0);
    var pos, iv, v := DecryptWholeBlocks(inp, out, length, key, tempIv);
    if length - pos > 0 {
      PlainPartly(d, block, inp[..], length);
      assert inp[..][..pos] == inp[..pos];
      PartialEnd(DecryptBlocks(d, block, inp[..pos]), old(out[..]), pos,
        XorBytes(d(Slice(inp[..], pos, 16)), Slice(iv[..], v, 16)), length);
      DecryptRest(inp, out, pos, length - pos, key, iv, v);
    } else {
      PlainWhole(d, block, inp[..], length);
      assert inp[..][..length] == inp[..pos];
    }
    outLength := AnnouncedLength(out, length);
  }

  lemma ProgressStarts(buf: array<bv8>, ivec: array<bv8>, text: Bytes, rest: Bytes, iv: Block)
    requires buf != ivec && ivec[..] == iv && buf[..] == text && |rest| <= |text| && rest == text[..|rest|]
    ensures Progress(buf, buf, 0, ivec, 0, text, [], rest, iv)
  {}

  lemma ProgressEnds(buf: array<bv8>, pos: nat, ivec: array<bv8>, was: Bytes, done: Bytes, rest: Bytes, block: Block)
    requires ivec.Length == 16 && Progress(buf, buf, pos, ivec, 0, was, done, rest, block)
    ensures |was| == buf.Length && pos <= |was| && buf[..] == done + was[pos..] && ivec[..] == block
  {}

  /** The loop of the decryption branch within one buffer: the whole blocks. */
  method DecryptWholeBlocksInPlace(buf: array<bv8>, length: nat, key: AesKey, ivec: array<bv8>) returns (pos: nat)
    requires length <= buf.Length && ivec != buf && ivec.Length == 16 && key.Ready()
    modifies buf, ivec
    ensures key.Schedule() == old(key.Schedule()) && pos == WholePart(length)
    ensures ivec[..] == ChainBlock(old(ivec[..]), old(buf[..])[..pos])
    ensures buf[..] == DecryptBlocks(Decipher(key.Schedule(), key.rounds), old(ivec[..]), old(buf[..])[..pos])
                     + old(buf[..])[pos..]
  {
    hide Decipher, Unpacked, XorBytes, DecryptBlocks, ChainBlock, Progress, WholePart;
    ghost var d, text := Decipher(key.Schedule(), key.rounds), buf[..];
    ghost var whole := WholePart(length);
    BlocksLeft(length, 0);
    ghost var iv0: Block := ivec[..];
    pos := 0;
    var len := length;
    DecryptedNone(d, iv0, text);
    assert text[0..whole] == text[..whole];
    ProgressStarts(buf, ivec, text, text[..whole], iv0);
    while len >= 16
      invariant pos + len == length && pos % 16 == 0 && (if len >= 16 then pos + 16 <= whole else pos == whole)
      invariant key.Schedule() == old(key.Schedule())
      invariant Progress(buf, buf, pos, ivec, 0, text, DecryptBlocks(d, iv0, text[..pos]), text[pos..whole],
                         ChainBlock(iv0, text[..pos]))
    {
      DecryptedNext(d, iv0, text, pos);
      assert text[pos..whole][..16] == text[pos..pos + 16] && text[pos..whole][16..] == text[pos + 16..whole];
      ghost var next := DecryptNextInPlace(buf, pos, key, ivec, text, DecryptBlocks(d, iv0, text[..pos]),
        text[pos..whole], ChainBlock(iv0, text[..pos]));
      len, pos := len - 16, pos + 16;
      BlocksLeft(length, pos);
    }
    ProgressEnds(buf, pos, ivec, text, DecryptBlocks(d, iv0, text[..pos]), text[pos..whole],
      ChainBlock(iv0, text[..pos]));
  }

  /** A last ciphertext block within one buffer: the bytes behind the first len are put back, and ivec takes the
      block. */
  method DecryptRestInPlace(buf: array<bv8>, pos: nat, len: nat, key: AesKey, ivec: array<bv8>)
    requires 0 < len < 16 && pos + 16 <= buf.Length && ivec != buf && ivec.Length == 16 && key.Ready()
    modifies buf, ivec
    ensures key.Schedule() == old(key.Schedule()) && ivec[..] == old(Slice(buf[..], pos, 16))
    ensures buf[..] == Splice(old(buf[..]), pos,
      XorBytes(Decipher(key.Schedule(), key.rounds)(old(Slice(buf[..], pos, 16))), old(ivec[..]))[..len])
  {
    hide Decipher, Unpacked;
    ghost var was, iv := buf[..], ivec[..];
    ghost var x := Decipher(key.Schedule(), key.rounds)(Slice(was, pos, 16));
    var tmp := CopyFrom(buf, pos);
    DecryptBlockAt(tmp, 0, buf, pos, key);
    assert Slice(tmp[..], 0, 16) == Slice(was, pos, 16);
    RestInPlace(buf, pos, len, tmp, ivec, was, x);
    for n := 0 to 16
      invariant buf[..] == Splice(was, pos, XorBytes(x, iv)[..len]) && tmp[..] == Slice(was, pos, 16)
      invariant forall k | 0 <= k < n :: ivec[k] == tmp[k]
    {
      ivec[n] := tmp[n];
    }
    assert ivec[..] == tmp[..];
  }

  /** The bytes below len are chained with ivec. */
  method ChainInPlace(buf: array<bv8>, pos: nat, len: nat, ivec: array<bv8>)
    requires len < 16 && pos + 16 <= buf.Length && ivec.Length == 16 && ivec != buf
    modifies buf
    ensures buf[..] == Splice(old(buf[..]), pos, XorBytes(old(buf[pos..pos + len]), ivec[..len]))
  {
    hide Add, Splice;
    ghost var was := buf[..];
    for n := 0 to len
      invariant forall k | pos <= k < pos + n :: buf[k] == Add(was[k], ivec[k - pos])
      invariant forall k | 0 <= k < buf.Length && !(pos <= k < pos + n) :: buf[k] == was[k]
    {
      buf[pos + n] := Add(buf[pos + n], ivec[n]);
    }
    SpliceIs(was, pos, XorBytes(was[pos..pos + len], ivec[..len]), buf[..]);
  }

  lemma SpliceSlice(was: Bytes, pos: nat, x: Block, len: nat)
    requires len < 16 && pos + 16 <= |was|
    ensures Splice(was, pos, x)[pos..pos + len] == x[..len]
  {
    assert Splice(was, pos, x)[pos..pos + 16] == x;
  }

  lemma SplicePart(was: Bytes, pos: nat, x: Block, y: Bytes, r: Bytes)
    requires |y| < 16 && pos + 16 <= |was| == |r|
    requires forall k | pos + |y| <= k < pos + 16 :: r[k] == was[k]
    requires forall k | 0 <= k < pos + |y| || pos + 16 <= k < |r| :: r[k] == Splice(Splice(was, pos, x), pos, y)[k]
    ensures r == Splice(was, pos, y)
  {}

  /** The bytes below len are chained with ivec; those from there on are put back from the saved copy. */
  method RestInPlace(buf: array<bv8>, pos: nat, len: nat, tmp: array<bv8>, ivec: array<bv8>, ghost was: Bytes,
                     ghost x: Block)
    requires len < 16 && pos + 16 <= buf.Length == |was| && tmp.Length == ivec.Length == 16
    requires buf[..] == Splice(was, pos, x) && tmp[..] == Slice(was, pos, 16) && tmp != buf && ivec != buf
    modifies buf
    ensures buf[..] == Splice(was, pos, XorBytes(x, ivec[..])[..len])
    ensures IsXor(buf[pos..pos + len], x[..len], ivec[..len])
  {
    hide XorBytes, IsXor, Splice;
    XorPrefix(x, ivec[..], len);
    SpliceSlice(was, pos, x, len);
    assert buf[pos..pos + len] == buf[..][pos..pos + len];
    ChainInPlace(buf, pos, len, ivec);
    ghost var y, mid := XorBytes(x[..len], ivec[..len]), buf[..];
    for n := len to 16
      invariant forall k | pos + len <= k < pos + n :: buf[k] == was[k]
      invariant forall k | 0 <= k < pos + len || pos + 16 <= k < buf.Length :: buf[k] == mid[k]
    {
      assert tmp[n] == Slice(was, pos, 16)[n] == was[pos + n];
      buf[pos + n] := tmp[n];
    }
    SplicePart(was, pos, x, y, buf[..]);
    SplicedXor(buf[..], was, pos, x[..len], ivec[..len]);
    assert buf[pos..pos + len] == buf[..][pos..pos + len];
  }

  /** The decryption branch of AES_cbc_core within one buffer: the same plaintext, and ivec ends as the last block of
      the ciphertext. */
  method CbcCoreDecryptInPlace(buf: array<bv8>, length: nat, key: AesKey, ivec: array<bv8>) returns (outLength: nat)
    requires 0 < length && WholeLength(length) <= buf.Length
    requires ivec != buf && ivec.Length == 16 && key.Ready()
    modifies buf, ivec
    ensures key.Schedule() == old(key.Schedule())
    ensures ivec[..] == old(Slice(buf[..], WholeLength(length) - 16, 16))
    ensures var p := Plain(Decipher(key.Schedule(), key.rounds), old(ivec[..]), old(buf[..]), length);
      outLength == UnpaddedLength(p) && buf[..] == p + old(buf[length..])
  {
    hide Decipher, Unpacked, UnpaddedLength, DecryptBlocks, XorBytes, Plain, Splice;
    ghost var d, was, block := Decipher(key.Schedule(), key.rounds), buf[..], ivec[..];
    var pos := DecryptWholeBlocksInPlace(buf, length, key, ivec);
    assert was[length..] == old(buf[length..]);
    if length - pos > 0 {
      PlainPartly(d, block, was, length);
      ghost var done := DecryptBlocks(d, block, was[..pos]);
      assert Slice(buf[..], pos, 16) == Slice(done + was[pos..], pos, 16) == was[pos..pos + 16];
      PartialEnd(done, was, pos, XorBytes(d(was[pos..pos + 16]), ivec[..]), length);
      DecryptRestInPlace(buf, pos, length - pos, key, ivec);
    } else {
      PlainWhole(d, block, was, length);
    }
    outLength := AnnouncedLength(buf, length);
  }

  /** AES_cbc_core: the three branches, chosen by enc and by whether the two buffers are one. */
  method AesCbcCore(inp: array<bv8>, out: array<bv8>, length: nat, key: AesKey, ivec: array<bv8>, enc: bool)
      returns (outLength: nat)
    requires length <= inp.Length && ivec.Length == 16 && key.Ready()
    requires if enc then length + PadLength(length) <= out.Length
             else 0 < length <= out.Length && WholeLength(length) <= inp.Length && (inp == out ==> ivec != out)
    modifies out, if enc || inp != out then {} else {ivec}
    ensures enc ==>
              && outLength == CipherLength(length)
              && out[..] == CbcEncrypt(old(Encipher(key.Schedule(), key.rounds)), old(ivec[..]), old(inp[..length]))
                          + old(out[length + PadLength(length)..])
    ensures !enc ==>
              && var p := Plain(old(Decipher(key.Schedule(), key.rounds)), old(ivec[..]), old(inp[..]), length);
              && outLength == UnpaddedLength(p)
              && out[..] == p + old(out[length..])
    ensures !enc && inp == out ==> ivec[..] == old(Slice(inp[..], WholeLength(length) - 16, 16))
  {
    hide Encipher, Decipher, Unpacked, UnpaddedLength, CbcEncrypt, Plain;
    assert ivec[..16] == ivec[..];
    if enc {
      outLength := CbcCoreEncrypt(inp, out, length, key, ivec);
    } else if inp != out {
      outLength := CbcCoreDecrypt(inp, out, length, key, ivec);
    } else {
      outLength := CbcCoreDecryptInPlace(out, length, key, ivec);
    }
  }

  // ---- keys given as bytes ----

  ghost predicate IsKeyBytes(k: Bytes) {
    |k| == 16 || |k| == 24 || |k| == 32
  }

  /** AES encryption of a block under a key of 16, 24 or 32 bytes. */
  ghost function AesEncipher(k: Bytes): Block -> Block
    requires IsKeyBytes(k)
  {
    Encipher(KeyExpansion(k, |k| / 4), |k| / 4 + 6)
  }

  /** AES decryption of a block under such a key. */
  ghost function AesDecipher(k: Bytes): Block -> Block
    requires IsKeyBytes(k)
  {
    Decipher(InverseSchedule(KeyExpansion(k, |k| / 4), |k| / 4 + 6), |k| / 4 + 6)
  }

  /** Under every key, the block that AES_decrypt computes from the block that AES_encrypt computed is the original. */
  lemma AesDecipherUndoesAesEncipher(k: Bytes)
    requires IsKeyBytes(k)
    ensures Undoes(AesDecipher(k), AesEncipher(k))
  {
    hide Encipher, Decipher, KeyExpansion, InverseSchedule;
    DecipherUndoesEncipher(KeyExpansion(k, |k| / 4), |k| / 4 + 6);
  }

  /** AES_CBC_Encrypt. */
  method AesCbcEncrypt(plain: array<bv8>, plainLength: nat, userKey: array<bv8>, iv: array<bv8>, cipher: array<bv8>)
      returns (cipherLength: nat)
    requires IsKeyBytes(userKey[..]) && iv.Length == 16
    requires plainLength <= plain.Length && plainLength + PadLength(plainLength) <= cipher.Length
    modifies cipher
    ensures cipherLength == CipherLength(plainLength)
    ensures cipher[..] == CbcEncrypt(AesEncipher(old(userKey[..])), old(iv[..]), old(plain[..plainLength]))
                        + old(cipher[plainLength + PadLength(plainLength)..])
  {
    hide Encipher, KeyExpansion, CbcEncrypt, Unpacked;
    var key := new AesKey();
    var status := AesSetEncryptKey(userKey, userKey.Length * 8, key);
    assert userKey[..userKey.Length] == userKey[..];
    cipherLength := AesCbcCore(plain, cipher, plainLength, key, iv, true);
  }

  /** AES_CBC_Decrypt, between two buffers or within one. */
  method AesCbcDecrypt(cipher: array<bv8>, cipherLength: nat, userKey: array<bv8>, iv: array<bv8>, plain: array<bv8>)
      returns (plainLength: nat)
    requires IsKeyBytes(userKey[..]) && iv.Length == 16
    requires 0 < cipherLength <= plain.Length && WholeLength(cipherLength) <= cipher.Length
    requires cipher == plain ==> iv != plain
    modifies plain, if cipher == plain then {iv} else {}
    ensures var p := Plain(AesDecipher(old(userKey[..])), old(iv[..]), old(cipher[..]), cipherLength);
      plainLength == UnpaddedLength(p) && plain[..] == p + old(plain[cipherLength..])
    ensures cipher == plain ==> iv[..] == old(Slice(cipher[..], WholeLength(cipherLength) - 16, 16))
  {
    hide Decipher, KeyExpansion, InverseSchedule, Plain, Unpacked, UnpaddedLength;
    var key := new AesKey();
    var status := AesSetDecryptKey(userKey, userKey.Length * 8, key);
    assert userKey[..userKey.Length] == userKey[..];
    plainLength := AesCbcCore(cipher, plain, cipherLength, key, iv, false);
  }

  /** For every plaintext, initial vector and key: what AesCbcDecrypt leaves, from as many bytes as AesCbcEncrypt
      announced, starts with the plaintext, and the length it returns is that of the plaintext, if and only if the
      plaintext is shorter than 2^32 - 16 bytes. */
  lemma AesCbcRoundTrip(k: Bytes, iv: Block, p: Bytes)
    requires IsKeyBytes(k) && |p| < 0x1_0000_0000
    ensures var c := CbcEncrypt(AesEncipher(k), iv, p);
      && |c| % 16 == 0 && |p| < |c| <= |p| + 16
      && CipherLength(|p|) <= |c| && DecryptBlocks(AesDecipher(k), iv, c) == Pad(p)
      && (Restores(AesDecipher(k), iv, c, CipherLength(|p|), p) <==> |p| < 0xFFFF_FFF0)
  {
    hide AesEncipher, AesDecipher, Restores, CipherLength, CbcEncrypt, DecryptBlocks, Pad;
    AesDecipherUndoesAesEncipher(k);
    CbcRoundTrip(AesEncipher(k), AesDecipher(k), iv, p);
  }
}
