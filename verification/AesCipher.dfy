/** The key schedule and the block functions of src/aes/aes_core.c, as methods over arrays: the state is loaded as four
    words, goes through the rounds in the loop form, and is stored as bytes again. */
module AesCipher {
  import opened Buffers
  import opened Gf256
  import opened Fips197
  import opened AesTables
  import opened AesCore

  const MAX_KEY_WORDS := 60

  function Unpacked(words: seq<bv32>): seq<Column> {
    seq(|words|, i requires 0 <= i < |words| => Unpack(words[i]))
  }

  /** An expanded key: struct aes_key_st. */
  class AesKey {
    const rdKey: array<bv32>
    var rounds: nat

    constructor ()
      ensures fresh(rdKey) && rdKey.Length == MAX_KEY_WORDS
    {
      rdKey := new bv32[MAX_KEY_WORDS];
      rounds := 0;
    }

    ghost predicate Ready()
      reads this
    {
      rdKey.Length == MAX_KEY_WORDS && (rounds == 10 || rounds == 12 || rounds == 14)
    }

    /** The key schedule that the words hold. */
    ghost function Schedule(): (w: seq<Column>)
      reads this, rdKey
      requires Ready()
      ensures IsSchedule(w, rounds)
    {
      Unpacked(rdKey[..4 * (rounds + 1)])
    }

    lemma ScheduleHolds(r: nat)
      requires Ready() && r <= rounds
      ensures HoldsState(rdKey[4 * r], rdKey[4 * r + 1], rdKey[4 * r + 2], rdKey[4 * r + 3], RoundKey(Schedule(), r))
    {
      hide Pack, Unpack;
      PackUnpack(rdKey[4 * r]);
      PackUnpack(rdKey[4 * r + 1]);
      PackUnpack(rdKey[4 * r + 2]);
      PackUnpack(rdKey[4 * r + 3]);
    }
  }

  /** Sixteen bytes of a buffer as four words, the first round key added. */
  method LoadState(inp: array<bv8>, i: nat, key: AesKey) returns (s0: bv32, s1: bv32, s2: bv32, s3: bv32)
    requires i + 16 <= inp.Length && key.Ready()
    ensures HoldsState(s0, s1, s2, s3, AddRoundKey(StateOf(Slice(inp[..], i, 16)), RoundKey(key.Schedule(), 0)))
    ensures IsMaskedWord(s0, key.rdKey[0], inp[i], inp[i + 1], inp[i + 2], inp[i + 3])
    ensures IsMaskedWord(s1, key.rdKey[1], inp[i + 4], inp[i + 5], inp[i + 6], inp[i + 7])
    ensures IsMaskedWord(s2, key.rdKey[2], inp[i + 8], inp[i + 9], inp[i + 10], inp[i + 11])
    ensures IsMaskedWord(s3, key.rdKey[3], inp[i + 12], inp[i + 13], inp[i + 14], inp[i + 15])
  {
    hide Pack, Unpack, Plus, XorWord, GetU32, IsMaskedWord;
    var rd := key.rdKey;
    s0 := XorWord(GetU32(inp[i], inp[i + 1], inp[i + 2], inp[i + 3]), rd[0]);
    s1 := XorWord(GetU32(inp[i + 4], inp[i + 5], inp[i + 6], inp[i + 7]), rd[1]);
    s2 := XorWord(GetU32(inp[i + 8], inp[i + 9], inp[i + 10], inp[i + 11]), rd[2]);
    s3 := XorWord(GetU32(inp[i + 12], inp[i + 13], inp[i + 14], inp[i + 15]), rd[3]);
    ghost var x := StateOf(Slice(inp[..], i, 16));
    ghost var k := RoundKey(key.Schedule(), 0);
    key.ScheduleHolds(0);
    GetU32Packs(inp[i], inp[i + 1], inp[i + 2], inp[i + 3]);
    GetU32Packs(inp[i + 4], inp[i + 5], inp[i + 6], inp[i + 7]);
    GetU32Packs(inp[i + 8], inp[i + 9], inp[i + 10], inp[i + 11]);
    GetU32Packs(inp[i + 12], inp[i + 13], inp[i + 14], inp[i + 15]);
    PackPlus(x.c0, k.c0);
    PackPlus(x.c1, k.c1);
    PackPlus(x.c2, k.c2);
    PackPlus(x.c3, k.c3);
    LoadedWord(inp[i], inp[i + 1], inp[i + 2], inp[i + 3], rd[0]);
    LoadedWord(inp[i + 4], inp[i + 5], inp[i + 6], inp[i + 7], rd[1]);
    LoadedWord(inp[i + 8], inp[i + 9], inp[i + 10], inp[i + 11], rd[2]);
    LoadedWord(inp[i + 12], inp[i + 13], inp[i + 14], inp[i + 15], rd[3]);
  }

  /** PUTU32: the four bytes of a word, the most significant first. */
  method PutU32(buf: array<bv8>, i: nat, w: bv32)
    requires i + 4 <= buf.Length
    modifies buf
    ensures buf[..] == Splice(old(buf[..]), i, ColumnBytes(Unpack(w)))
    ensures IsWord(w, buf[i], buf[i + 1], buf[i + 2], buf[i + 3])
  {
    StoredWord(w);
    hide Byte0, Byte1, Byte2, Byte3, IsWord;
    buf[i] := Byte0(w);
    buf[i + 1] := Byte1(w);
    buf[i + 2] := Byte2(w);
    buf[i + 3] := Byte3(w);
  }

  method StoreState(out: array<bv8>, o: nat, w0: bv32, w1: bv32, w2: bv32, w3: bv32, ghost s: State)
    requires o + 16 <= out.Length && HoldsState(w0, w1, w2, w3, s)
    modifies out
    ensures out[..] == Splice(old(out[..]), o, BytesOf(s))
    ensures IsWord(w0, out[o], out[o + 1], out[o + 2], out[o + 3])
    ensures IsWord(w1, out[o + 4], out[o + 5], out[o + 6], out[o + 7])
    ensures IsWord(w2, out[o + 8], out[o + 9], out[o + 10], out[o + 11])
    ensures IsWord(w3, out[o + 12], out[o + 13], out[o + 14], out[o + 15])
  {
    hide Pack, Unpack, Splice, ColumnBytes, IsWord;
    UnpackPack(s.c0);
    UnpackPack(s.c1);
    UnpackPack(s.c2);
    UnpackPack(s.c3);
    ghost var was := out[..];
    SpliceSplice(was, o, ColumnBytes(s.c0), ColumnBytes(s.c1));
    SpliceSplice(was, o, ColumnBytes(s.c0) + ColumnBytes(s.c1), ColumnBytes(s.c2));
    SpliceSplice(was, o, ColumnBytes(s.c0) + ColumnBytes(s.c1) + ColumnBytes(s.c2), ColumnBytes(s.c3));
    PutU32(out, o, w0);
    PutU32(out, o + 4, w1);
    PutU32(out, o + 8, w2);
    PutU32(out, o + 12, w3);
  }

  lemma EncRound(key: AesKey, w0: bv32, w1: bv32, w2: bv32, w3: bv32, x: State, r: nat)
    requires key.Ready() && 0 < r <= key.rounds
    requires HoldsState(w0, w1, w2, w3, EncryptRounds(x, key.Schedule(), r - 1))
    ensures var rd := key.rdKey;
      HoldsState(EncWord(w0, w1, w2, w3, rd[4 * r]), EncWord(w1, w2, w3, w0, rd[4 * r + 1]),
            EncWord(w2, w3, w0, w1, rd[4 * r + 2]), EncWord(w3, w0, w1, w2, rd[4 * r + 3]),
            EncryptRounds(x, key.Schedule(), r))
  {
    hide Pack, Unpacked, EncWord, MixColumn, Plus;
    key.ScheduleHolds(r);
    var rd := key.rdKey;
    EncRoundHolds(w0, w1, w2, w3, rd[4 * r], rd[4 * r + 1], rd[4 * r + 2], rd[4 * r + 3],
                  EncryptRounds(x, key.Schedule(), r - 1), RoundKey(key.Schedule(), r));
  }

  /** The Nr - 1 full rounds of AES_encrypt: two per pass, with the exit in the middle. On return rk is the word where
      the last round key starts. */
  method FullEncRounds(key: AesKey, w0: bv32, w1: bv32, w2: bv32, w3: bv32, ghost x: State)
      returns (t0: bv32, t1: bv32, t2: bv32, t3: bv32, rk: nat)
    requires key.Ready() && HoldsState(w0, w1, w2, w3, EncryptRounds(x, key.Schedule(), 0))
    ensures rk == 4 * key.rounds
    ensures HoldsState(t0, t1, t2, t3, EncryptRounds(x, key.Schedule(), key.rounds - 1))
  {
    hide HoldsState, Unpacked, EncWord, EncryptRounds;
    var s0, s1, s2, s3 := w0, w1, w2, w3;
    var rd := key.rdKey;
    rk := 0;
    var r := key.rounds / 2;
    while true
      invariant 0 < r && rk == 4 * (key.rounds - 2 * r)
      invariant HoldsState(s0, s1, s2, s3, EncryptRounds(x, key.Schedule(), key.rounds - 2 * r))
      decreases r
    {
      EncRound(key, s0, s1, s2, s3, x, key.rounds - 2 * r + 1);
      t0 := EncWord(s0, s1, s2, s3, rd[rk + 4]);
      t1 := EncWord(s1, s2, s3, s0, rd[rk + 5]);
      t2 := EncWord(s2, s3, s0, s1, rd[rk + 6]);
      t3 := EncWord(s3, s0, s1, s2, rd[rk + 7]);
      rk := rk + 8;
      r := r - 1;
      if r == 0 {
        break;
      }
      EncRound(key, t0, t1, t2, t3, x, key.rounds - 2 * r);
      s0 := EncWord(t0, t1, t2, t3, rd[rk]);
      s1 := EncWord(t1, t2, t3, t0, rd[rk + 1]);
      s2 := EncWord(t2, t3, t0, t1, rd[rk + 2]);
      s3 := EncWord(t3, t0, t1, t2, rd[rk + 3]);
    }
  }

  /** AES_encrypt. The input is read before the output is written, so the two blocks may lie anywhere in the same
      buffer. */
  method AesEncrypt(inp: array<bv8>, i: nat, out: array<bv8>, o: nat, key: AesKey)
    requires i + 16 <= inp.Length && o + 16 <= out.Length && key.Ready()
    modifies out
    ensures out[..] == Splice(old(out[..]), o,
                              BytesOf(Cipher(StateOf(old(Slice(inp[..], i, 16))), old(key.Schedule()), key.rounds)))
  {
    hide Pack, Unpacked, SubTe4, SubBytes, InvSubBytes, MixColumns, InvMixColumns, Plus, BytesOf, Splice, StateOf,
      Slice;
    ghost var x := StateOf(Slice(inp[..], i, 16));
    ghost var w := key.Schedule();
    var s0, s1, s2, s3 := LoadState(inp, i, key);
    var t0, t1, t2, t3, rk := FullEncRounds(key, s0, s1, s2, s3, x);
    var rd := key.rdKey;
    key.ScheduleHolds(key.rounds);
    LastEncRoundHolds(t0, t1, t2, t3, rd[rk], rd[rk + 1], rd[rk + 2], rd[rk + 3],
                      EncryptRounds(x, w, key.rounds - 1), RoundKey(w, key.rounds));
    s0 := SubTe4(Byte0(t0), Byte1(t1), Byte2(t2), Byte3(t3), rd[rk]);
    s1 := SubTe4(Byte0(t1), Byte1(t2), Byte2(t3), Byte3(t0), rd[rk + 1]);
    s2 := SubTe4(Byte0(t2), Byte1(t3), Byte2(t0), Byte3(t1), rd[rk + 2]);
    s3 := SubTe4(Byte0(t3), Byte1(t0), Byte2(t1), Byte3(t2), rd[rk + 3]);
    StoreState(out, o, s0, s1, s2, s3, Cipher(x, w, key.rounds));
  }

  lemma DecRound(key: AesKey, w0: bv32, w1: bv32, w2: bv32, w3: bv32, x: State, r: nat)
    requires key.Ready() && 0 < r <= key.rounds
    requires HoldsState(w0, w1, w2, w3, DecryptRounds(x, key.Schedule(), r - 1))
    ensures var rd := key.rdKey;
      HoldsState(DecWord(w0, w3, w2, w1, rd[4 * r]), DecWord(w1, w0, w3, w2, rd[4 * r + 1]),
            DecWord(w2, w1, w0, w3, rd[4 * r + 2]), DecWord(w3, w2, w1, w0, rd[4 * r + 3]),
            DecryptRounds(x, key.Schedule(), r))
  {
    hide Pack, Unpacked, DecWord, InvMixColumn, Plus;
    key.ScheduleHolds(r);
    var rd := key.rdKey;
    DecRoundHolds(w0, w1, w2, w3, rd[4 * r], rd[4 * r + 1], rd[4 * r + 2], rd[4 * r + 3],
                  DecryptRounds(x, key.Schedule(), r - 1), RoundKey(key.Schedule(), r));
  }

  /** The Nr - 1 full rounds of AES_decrypt. */
  method FullDecRounds(key: AesKey, w0: bv32, w1: bv32, w2: bv32, w3: bv32, ghost x: State)
      returns (t0: bv32, t1: bv32, t2: bv32, t3: bv32, rk: nat)
    requires key.Ready() && HoldsState(w0, w1, w2, w3, DecryptRounds(x, key.Schedule(), 0))
    ensures rk == 4 * key.rounds
    ensures HoldsState(t0, t1, t2, t3, DecryptRounds(x, key.Schedule(), key.rounds - 1))
  {
    hide HoldsState, Unpacked, DecWord, DecryptRounds;
    var s0, s1, s2, s3 := w0, w1, w2, w3;
    var rd := key.rdKey;
    rk := 0;
    var r := key.rounds / 2;
    while true
      invariant 0 < r && rk == 4 * (key.rounds - 2 * r)
      invariant HoldsState(s0, s1, s2, s3, DecryptRounds(x, key.Schedule(), key.rounds - 2 * r))
      decreases r
    {
      DecRound(key, s0, s1, s2, s3, x, key.rounds - 2 * r + 1);
      t0 := DecWord(s0, s3, s2, s1, rd[rk + 4]);
      t1 := DecWord(s1, s0, s3, s2, rd[rk + 5]);
      t2 := DecWord(s2, s1, s0, s3, rd[rk + 6]);
      t3 := DecWord(s3, s2, s1, s0, rd[rk + 7]);
      rk := rk + 8;
      r := r - 1;
      if r == 0 {
        break;
      }
      DecRound(key, t0, t1, t2, t3, x, key.rounds - 2 * r);
      s0 := DecWord(t0, t3, t2, t1, rd[rk]);
      s1 := DecWord(t1, t0, t3, t2, rd[rk + 1]);
      s2 := DecWord(t2, t1, t0, t3, rd[rk + 2]);
      s3 := DecWord(t3, t2, t1, t0, rd[rk + 3]);
    }
  }

  /** AES_decrypt, with a decryption key. */
  method AesDecrypt(inp: array<bv8>, i: nat, out: array<bv8>, o: nat, key: AesKey)
    requires i + 16 <= inp.Length && o + 16 <= out.Length && key.Ready()
    modifies out
    ensures out[..] == Splice(old(out[..]), o,
      BytesOf(EqInvCipher(StateOf(old(Slice(inp[..], i, 16))), old(key.Schedule()), key.rounds)))
  {
    hide Pack, Unpacked, SubTd4, SubBytes, InvSubBytes, MixColumns, InvMixColumns, Plus, BytesOf, Splice, StateOf,
      Slice;
    ghost var x := StateOf(Slice(inp[..], i, 16));
    ghost var w := key.Schedule();
    var s0, s1, s2, s3 := LoadState(inp, i, key);
    var t0, t1, t2, t3, rk := FullDecRounds(key, s0, s1, s2, s3, x);
    var rd := key.rdKey;
    key.ScheduleHolds(key.rounds);
    LastDecRoundHolds(t0, t1, t2, t3, rd[rk], rd[rk + 1], rd[rk + 2], rd[rk + 3],
                      DecryptRounds(x, w, key.rounds - 1), RoundKey(w, key.rounds));
    s0 := SubTd4(Byte0(t0), Byte1(t3), Byte2(t2), Byte3(t1), rd[rk]);
    s1 := SubTd4(Byte0(t1), Byte1(t0), Byte2(t3), Byte3(t2), rd[rk + 1]);
    s2 := SubTd4(Byte0(t2), Byte1(t1), Byte2(t0), Byte3(t3), rd[rk + 2]);
    s3 := SubTd4(Byte0(t3), Byte1(t2), Byte2(t1), Byte3(t0), rd[rk + 3]);
    StoreState(out, o, s0, s1, s2, s3, EqInvCipher(x, w, key.rounds));
  }
}
