/** The key expansions of src/aes/aes_core.c: the three unrolled loops for encryption, and for decryption the
    reversing and mixing of the round keys in place. Errors are returned as the source returns them. */
module AesKeySchedule {
  import opened Gf256
  import opened Fips197
  import opened AesTables
  import opened AesCore
  import opened AesCipher

  const RCON: seq<bv32> := [
    0x01000000, 0x02000000, 0x04000000, 0x08000000,
    0x10000000, 0x20000000, 0x40000000, 0x80000000,
    0x1B000000, 0x36000000
  ]

  /** The constants of the source are the powers of x that section 5.2 calls for. */
  lemma {:induction false} RconHolds(i: nat)
    requires 0 < i <= |RCON|
    ensures RCON[i - 1] == Pack(Column(RconByte(i), 0, 0, 0))
  {
    if i > 1 {
      RconHolds(i - 1);
    }
  }

  /** The first m words of a schedule are those of the expansion of k. */
  ghost predicate Filled(words: seq<bv32>, k: seq<bv8>, nk: nat, m: nat)
    requires IsKey(k, nk)
  {
    m <= |words| && forall j | 0 <= j < m :: words[j] == Pack(KeyWord(k, nk, j))
  }

  // ---- one word of the expansion ----

  /** A word at the start of a run of nk words: the j-th, with j = nk * (i + 1). */
  lemma RotatedWord(k: seq<bv8>, nk: nat, i: nat, j: nat)
    requires IsKey(k, nk) && i < |RCON| && nk <= j && j % nk == 0 && j / nk == i + 1
    ensures var temp := Pack(KeyWord(k, nk, j - 1));
      XorWord(Pack(KeyWord(k, nk, j - nk)), SubTe4(Byte1(temp), Byte2(temp), Byte3(temp), Byte0(temp), RCON[i]))
      == Pack(KeyWord(k, nk, j))
  {
    hide Pack, SubTe4, SubColumn, Plus, XorWord, Byte0, Byte1, Byte2, Byte3, RconByte;
    var t := KeyWord(k, nk, j - 1);
    var rcon := Column(RconByte(i + 1), 0, 0, 0);
    UnpackPack(t);
    RconHolds(i + 1);
    SubTe4Substitutes(RotWord(t), rcon);
    PackPlus(KeyWord(k, nk, j - nk), Plus(SubColumn(RotWord(t)), rcon));
  }

  lemma ZeroWord(c: Column)
    ensures Pack(Column(0, 0, 0, 0)) == 0 && Plus(c, Column(0, 0, 0, 0)) == c
  {}

  /** A word in the middle of a run of eight. */
  lemma SubstitutedWord(k: seq<bv8>, j: nat)
    requires IsKey(k, 8) && 8 <= j && j % 8 == 4
    ensures var temp := Pack(KeyWord(k, 8, j - 1));
      XorWord(Pack(KeyWord(k, 8, j - 8)), SubTe4(Byte0(temp), Byte1(temp), Byte2(temp), Byte3(temp), 0))
      == Pack(KeyWord(k, 8, j))
  {
    hide Pack, SubTe4, SubColumn, Plus, XorWord, Byte0, Byte1, Byte2, Byte3, RconByte;
    var t := KeyWord(k, 8, j - 1);
    UnpackPack(t);
    ZeroWord(SubColumn(t));
    SubTe4Substitutes(t, Column(0, 0, 0, 0));
    PackPlus(KeyWord(k, 8, j - 8), SubColumn(t));
  }

  /** Any other word. */
  lemma ChainedWord(k: seq<bv8>, nk: nat, j: nat)
    requires IsKey(k, nk) && nk <= j && j % nk != 0 && !(nk == 8 && j % nk == 4)
    ensures XorWord(Pack(KeyWord(k, nk, j - nk)), Pack(KeyWord(k, nk, j - 1))) == Pack(KeyWord(k, nk, j))
  {
    hide Pack, XorWord, Plus;
    PackPlus(KeyWord(k, nk, j - nk), KeyWord(k, nk, j - 1));
  }

  /** The word that begins a run of nk words: the word nk back, plus the rotated, substituted word before, plus a
      constant. */
  method PutRotated(rk: array<bv32>, nk: nat, i: nat, j: nat, ghost k: seq<bv8>)
    requires IsKey(k, nk) && i < |RCON| && nk <= j < rk.Length && j % nk == 0 && j / nk == i + 1
    requires Filled(rk[..], k, nk, j)
    modifies rk
    ensures Filled(rk[..], k, nk, j + 1)
  {
    hide Pack, XorWord, SubTe4, KeyWord, Byte0, Byte1, Byte2, Byte3;
    RotatedWord(k, nk, i, j);
    var temp := rk[j - 1];
    rk[j] := XorWord(rk[j - nk], SubTe4(Byte1(temp), Byte2(temp), Byte3(temp), Byte0(temp), RCON[i]));
  }

  /** The middle word of a run of eight: the word eight back plus the substituted word before. */
  method PutSubstituted(rk: array<bv32>, j: nat, ghost k: seq<bv8>)
    requires IsKey(k, 8) && 8 <= j < rk.Length && j % 8 == 4
    requires Filled(rk[..], k, 8, j)
    modifies rk
    ensures Filled(rk[..], k, 8, j + 1)
  {
    hide Pack, XorWord, SubTe4, KeyWord, Byte0, Byte1, Byte2, Byte3;
    SubstitutedWord(k, j);
    var temp := rk[j - 1];
    rk[j] := XorWord(rk[j - 8], SubTe4(Byte0(temp), Byte1(temp), Byte2(temp), Byte3(temp), 0));
  }

  /** Any other word: the word nk back plus the word before. */
  method PutChained(rk: array<bv32>, nk: nat, j: nat, ghost k: seq<bv8>)
    requires IsKey(k, nk) && nk <= j < rk.Length && j % nk != 0 && !(nk == 8 && j % nk == 4)
    requires Filled(rk[..], k, nk, j)
    modifies rk
    ensures Filled(rk[..], k, nk, j + 1)
  {
    hide Pack, XorWord, KeyWord;
    ChainedWord(k, nk, j);
    rk[j] := XorWord(rk[j - nk], rk[j - 1]);
  }

  // ---- the expansions ----

  /** The key bytes, as the words from the first on. */
  method LoadKey(userKey: array<bv8>, rk: array<bv32>, nk: nat)
    requires 4 * nk <= userKey.Length && nk <= rk.Length && IsKey(userKey[..4 * nk], nk)
    modifies rk
    ensures Filled(rk[..], userKey[..4 * nk], nk, nk)
  {
    hide Pack, GetU32;
    ghost var k := userKey[..4 * nk];
    for i := 0 to nk
      invariant Filled(rk[..], k, nk, i)
    {
      rk[i] := GetU32(userKey[4 * i], userKey[4 * i + 1], userKey[4 * i + 2], userKey[4 * i + 3]);
      GetU32Packs(userKey[4 * i], userKey[4 * i + 1], userKey[4 * i + 2], userKey[4 * i + 3]);
    }
  }

  /** The bits of the first words are the key bytes in their order. */
  lemma KeyBytesKept(words: seq<bv32>, k: seq<bv8>, nk: nat)
    requires IsKey(k, nk) && nk <= |words| && Filled(words, k, nk, nk)
    ensures forall i | 0 <= i < nk :: IsWord(words[i], k[4 * i], k[4 * i + 1], k[4 * i + 2], k[4 * i + 3])
  {
    hide Pack, IsWord;
    forall i | 0 <= i < nk
      ensures IsWord(words[i], k[4 * i], k[4 * i + 1], k[4 * i + 2], k[4 * i + 3])
    {
      PackIsWord(k[4 * i], k[4 * i + 1], k[4 * i + 2], k[4 * i + 3]);
    }
  }

  method Expand128(rk: array<bv32>, ghost k: seq<bv8>)
    requires IsKey(k, 4) && rk.Length == MAX_KEY_WORDS && Filled(rk[..], k, 4, 4)
    modifies rk
    ensures Filled(rk[..], k, 4, 44)
  {
    hide Filled;
    var i, p := 0, 0;
    while true
      invariant 0 <= i < 10 && p == 4 * i && Filled(rk[..], k, 4, p + 4)
      decreases 10 - i
    {
      PutRotated(rk, 4, i, p + 4, k);
      PutChained(rk, 4, p + 5, k);
      PutChained(rk, 4, p + 6, k);
      PutChained(rk, 4, p + 7, k);
      i := i + 1;
      if i == 10 {
        return;
      }
      p := p + 4;
    }
  }

  method Expand192(rk: array<bv32>, ghost k: seq<bv8>)
    requires IsKey(k, 6) && rk.Length == MAX_KEY_WORDS && Filled(rk[..], k, 6, 6)
    modifies rk
    ensures Filled(rk[..], k, 6, 52)
  {
    hide Filled;
    var i, p := 0, 0;
    while true
      invariant 0 <= i < 8 && p == 6 * i && Filled(rk[..], k, 6, p + 6)
      decreases 8 - i
    {
      PutRotated(rk, 6, i, p + 6, k);
      PutChained(rk, 6, p + 7, k);
      PutChained(rk, 6, p + 8, k);
      PutChained(rk, 6, p + 9, k);
      i := i + 1;
      if i == 8 {
        return;
      }
      PutChained(rk, 6, p + 10, k);
      PutChained(rk, 6, p + 11, k);
      p := p + 6;
    }
  }

  method Expand256(rk: array<bv32>, ghost k: seq<bv8>)
    requires IsKey(k, 8) && rk.Length == MAX_KEY_WORDS && Filled(rk[..], k, 8, 8)
    modifies rk
    ensures Filled(rk[..], k, 8, 60)
  {
    hide Filled;
    var i, p := 0, 0;
    while true
      invariant 0 <= i < 7 && p == 8 * i && Filled(rk[..], k, 8, p + 8)
      decreases 7 - i
    {
      PutRotated(rk, 8, i, p + 8, k);
      PutChained(rk, 8, p + 9, k);
      PutChained(rk, 8, p + 10, k);
      PutChained(rk, 8, p + 11, k);
      i := i + 1;
      if i == 7 {
        return;
      }
      PutSubstituted(rk, p + 12, k);
      PutChained(rk, 8, p + 13, k);
      PutChained(rk, 8, p + 14, k);
      PutChained(rk, 8, p + 15, k);
      p := p + 8;
    }
  }

  /** What the three expansions leave is the key expansion of section 5.2. */
  lemma FilledIsExpansion(words: seq<bv32>, k: seq<bv8>, nk: nat)
    requires IsKey(k, nk) && |words| == 4 * (nk + 7) && Filled(words, k, nk, |words|)
    ensures Unpacked(words) == KeyExpansion(k, nk)
  {
    hide Pack, Unpack, KeyWord;
    forall j | 0 <= j < |words| ensures Unpack(words[j]) == KeyWord(k, nk, j) {
      UnpackPack(KeyWord(k, nk, j));
    }
  }

  /** The number of bytes of a supported key, and 0 for any other size. */
  function KeyBytes(bits: int): nat {
    if bits == 128 || bits == 192 || bits == 256 then bits / 8 else 0
  }

  /** AES_set_encrypt_key. */
  method AesSetEncryptKey(userKey: array?<bv8>, bits: int, key: AesKey?) returns (status: int)
    requires userKey != null ==> KeyBytes(bits) <= userKey.Length
    requires key != null ==> key.rdKey.Length == MAX_KEY_WORDS
    modifies key, if key == null then {} else {key.rdKey}
    ensures status == if userKey == null || key == null then -1 else if KeyBytes(bits) == 0 then -2 else 0
    ensures status < 0 && key != null ==> key.rounds == old(key.rounds) && key.rdKey[..] == old(key.rdKey[..])
    ensures status == 0 ==>
              var nk := KeyBytes(bits) / 4;
              key.Ready() && key.rounds == nk + 6 && key.Schedule() == KeyExpansion(userKey[..4 * nk], nk)
    ensures status == 0 ==>
              forall i | 0 <= i < KeyBytes(bits) / 4 ::
                IsWord(key.rdKey[i], userKey[4 * i], userKey[4 * i + 1], userKey[4 * i + 2], userKey[4 * i + 3])
  {
    if userKey == null || key == null {
      return -1;
    }
    if bits != 128 && bits != 192 && bits != 256 {
      return -2;
    }
    key.rounds := if bits == 128 then 10 else if bits == 192 then 12 else 14;
    var nk := bits / 32;
    var rk := key.rdKey;
    ghost var k := userKey[..4 * nk];
    LoadKey(userKey, rk, nk);
    if bits == 128 {
      Expand128(rk, k);
    } else if bits == 192 {
      Expand192(rk, k);
    } else {
      Expand256(rk, k);
    }
    FilledIsExpansion(rk[..4 * (nk + 7)], k, nk);
    KeyBytesKept(rk[..4 * (nk + 7)], k, nk);
    return 0;
  }

  // ---- the decryption key ----

  lemma MirrorOfRoundKey(r: nat, nr: nat)
    requires r <= nr
    ensures forall q | 4 * r <= q < 4 * r + 4 :: Mirror(q, nr) == 4 * (nr - r) + (q - 4 * r)
  {}

  /** The place that goes to q when four places from i on and four from j on are exchanged. */
  function SwapPlace(q: nat, i: nat, j: nat): (p: nat) {
    if i <= q < i + 4 then q - i + j else if j <= q < j + 4 then q - j + i else q
  }

  ghost predicate PlacesSwapped<T>(now: seq<T>, next: seq<T>, i: nat, j: nat)
    requires |now| == |next| && i + 4 <= |now| && j + 4 <= |now|
  {
    forall q | 0 <= q < |next| :: next[q] == now[SwapPlace(q, i, j)]
  }

  /** Four words exchanged with four others. */
  method SwapRoundKeys<T>(rk: array<T>, i: nat, j: nat)
    requires i + 4 <= j && j + 4 <= rk.Length
    modifies rk
    ensures forall q | 0 <= q < rk.Length :: rk[q] == old(rk[SwapPlace(q, i, j)])
  {
    rk[i], rk[j] := rk[j], rk[i];
    rk[i + 1], rk[j + 1] := rk[j + 1], rk[i + 1];
    rk[i + 2], rk[j + 2] := rk[j + 2], rk[i + 2];
    rk[i + 3], rk[j + 3] := rk[j + 3], rk[i + 3];
  }

  /** The outer r round keys at both ends have changed places; the others have not moved. */
  ghost predicate OuterReversed<T>(now: seq<T>, was: seq<T>, r: nat, nr: nat)
    requires |now| == |was| && 4 * (nr + 1) <= |was|
  {
    forall q | 0 <= q < 4 * (nr + 1) ::
      now[q] == if 4 * r <= q < 4 * (nr - r) + 4 then was[q] else was[Mirror(q, nr)]
  }

  lemma OuterReversedStep<T>(now: seq<T>, next: seq<T>, was: seq<T>, r: nat, nr: nat)
    requires |now| == |next| == |was| && 4 * (nr + 1) <= |was| && 2 * r < nr && OuterReversed(now, was, r, nr)
    requires PlacesSwapped(now, next, 4 * r, 4 * (nr - r))
    ensures OuterReversed(next, was, r + 1, nr)
  {
    MirrorOfRoundKey(r, nr);
    MirrorOfRoundKey(nr - r, nr);
    hide Mirror;
    var i, j := 4 * r, 4 * (nr - r);
    forall q | i <= q < i + 4 ensures next[q] == was[Mirror(q, nr)] {
      assert next[q] == now[SwapPlace(q, i, j)];
    }
    forall q | j <= q < j + 4 ensures next[q] == was[Mirror(q, nr)] {
      assert next[q] == now[SwapPlace(q, i, j)];
    }
    forall q | 0 <= q < |next| && !(i <= q < i + 4) && !(j <= q < j + 4) ensures next[q] == now[q] {
      assert next[q] == now[SwapPlace(q, i, j)];
    }
  }

  lemma AllReversed<T>(now: seq<T>, was: seq<T>, r: nat, nr: nat)
    requires |now| == |was| && 4 * (nr + 1) <= |was| && nr <= 2 * r <= nr + 1 && OuterReversed(now, was, r, nr)
    ensures forall q | 0 <= q < 4 * (nr + 1) :: now[q] == was[Mirror(q, nr)]
  {
    if nr == 2 * r {
      MirrorOfRoundKey(r, nr);
    }
    hide Mirror;
  }

  /** The order of the round keys, reversed in place. */
  method ReverseRoundKeys<T>(rk: array<T>, nr: nat)
    requires 4 * (nr + 1) <= rk.Length
    modifies rk
    ensures forall q | 0 <= q < 4 * (nr + 1) :: rk[q] == old(rk[Mirror(q, nr)])
  {
    hide Mirror;
    ghost var was := rk[..];
    ghost var r := 0;
    var i, j := 0, 4 * nr;
    while i < j
      invariant i == 4 * r && j == 4 * (nr - r) && 2 * r <= nr + 1 && OuterReversed(rk[..], was, r, nr)
    {
      hide OuterReversed;
      ghost var now := rk[..];
      SwapRoundKeys(rk, i, j);
      assert forall q | 0 <= q < rk.Length :: rk[..][q] == rk[q] == now[SwapPlace(q, i, j)];
      OuterReversedStep(now, rk[..], was, r, nr);
      i, j, r := i + 4, j - 4, r + 1;
    }
    hide OuterReversed;
    AllReversed(rk[..], was, r, nr);
    assert forall q | 0 <= q < 4 * (nr + 1) :: rk[q] == rk[..][q];
  }

  /** InvMixColumn applied in place to all round keys but the first and the last. */
  method MixRoundKeys(rk: array<bv32>, nr: nat)
    requires 0 < nr && 4 * (nr + 1) <= rk.Length
    modifies rk
    ensures forall q | 0 <= q < 4 * (nr + 1) ::
              rk[q] == if 4 <= q < 4 * nr then InvMixWord(old(rk[q])) else old(rk[q])
  {
    hide InvMixWord;
    for i := 1 to nr
      invariant forall q | 0 <= q < 4 * (nr + 1) ::
                  rk[q] == if 4 <= q < 4 * i then InvMixWord(old(rk[q])) else old(rk[q])
    {
      var p := 4 * i;
      rk[p] := InvMixWord(rk[p]);
      rk[p + 1] := InvMixWord(rk[p + 1]);
      rk[p + 2] := InvMixWord(rk[p + 2]);
      rk[p + 3] := InvMixWord(rk[p + 3]);
    }
  }

  lemma MixedWord(w: bv32)
    ensures Unpack(InvMixWord(w)) == InvMixColumn(Unpack(w))
  {
    hide InvMixWord, Pack, Unpack, InvMixColumn;
    PackUnpack(w);
    InvMixWordMixes(Unpack(w));
    UnpackPack(InvMixColumn(Unpack(w)));
  }

  /** A schedule reversed and mixed is the schedule of the equivalent inverse cipher. */
  lemma MixedIsInverseSchedule(words: seq<bv32>, mixed: seq<bv32>, nr: nat)
    requires 0 < nr && |words| == |mixed| == 4 * (nr + 1)
    requires forall q | 0 <= q < |words| ::
               mixed[q] == if 4 <= q < 4 * nr then InvMixWord(words[Mirror(q, nr)]) else words[Mirror(q, nr)]
    ensures Unpacked(mixed) == InverseSchedule(Unpacked(words), nr)
  {
    hide InvMixWord, Unpack, InvMixColumn, Mirror;
    forall q | 4 <= q < 4 * nr
      ensures Unpack(mixed[q]) == InvMixColumn(Unpack(words[Mirror(q, nr)]))
    {
      MixedWord(words[Mirror(q, nr)]);
    }
  }

  /** AES_set_decrypt_key. */
  method AesSetDecryptKey(userKey: array?<bv8>, bits: int, key: AesKey?) returns (status: int)
    requires userKey != null ==> KeyBytes(bits) <= userKey.Length
    requires key != null ==> key.rdKey.Length == MAX_KEY_WORDS
    modifies key, if key == null then {} else {key.rdKey}
    ensures status == if userKey == null || key == null then -1 else if KeyBytes(bits) == 0 then -2 else 0
    ensures status < 0 && key != null ==> key.rounds == old(key.rounds) && key.rdKey[..] == old(key.rdKey[..])
    ensures status == 0 ==>
              var nk := KeyBytes(bits) / 4;
              key.Ready() && key.rounds == nk + 6
              && key.Schedule() == InverseSchedule(KeyExpansion(userKey[..4 * nk], nk), nk + 6)
  {
    hide InvMixWord, KeyExpansion, InverseSchedule;
    status := AesSetEncryptKey(userKey, bits, key);
    if status < 0 {
      return;
    }
    var rk := key.rdKey;
    var nr := key.rounds;
    ghost var words := rk[..4 * (nr + 1)];
    ReverseRoundKeys(rk, nr);
    MixRoundKeys(rk, nr);
    MixedIsInverseSchedule(words, rk[..4 * (nr + 1)], nr);
  }
}
