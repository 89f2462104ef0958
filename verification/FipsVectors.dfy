/** The example of section C.1 of FIPS 197, and the first words of the expansions of sections C.2 and C.3, worked out
    from the definitions. */
module FipsVectors {
  import opened Gf256
  import opened Fips197
  import opened AesCore

  const KEY: seq<bv8> := [
    0x00, 0x01, 0x02, 0x03, 0x04, 0x05, 0x06, 0x07, 0x08, 0x09, 0x0a, 0x0b, 0x0c, 0x0d, 0x0e, 0x0f
  ]

  const PLAINTEXT: seq<bv8> := [
    0x00, 0x11, 0x22, 0x33, 0x44, 0x55, 0x66, 0x77, 0x88, 0x99, 0xaa, 0xbb, 0xcc, 0xdd, 0xee, 0xff
  ]

  const CIPHERTEXT: seq<bv8> := [
    0x69, 0xc4, 0xe0, 0xd8, 0x6a, 0x7b, 0x04, 0x30, 0xd8, 0xcd, 0xb7, 0x80, 0x70, 0xb4, 0xc5, 0x5a
  ]

  /** A state by the four words of its columns. */
  function Words(w0: bv32, w1: bv32, w2: bv32, w3: bv32): State {
    State(Unpack(w0), Unpack(w1), Unpack(w2), Unpack(w3))
  }

  /** The round keys of the example. */
  function Key128(r: nat): State {
    match r
    case 0 => Words(0x00010203, 0x04050607, 0x08090a0b, 0x0c0d0e0f)
    case 1 => Words(0xd6aa74fd, 0xd2af72fa, 0xdaa678f1, 0xd6ab76fe)
    case 2 => Words(0xb692cf0b, 0x643dbdf1, 0xbe9bc500, 0x6830b3fe)
    case 3 => Words(0xb6ff744e, 0xd2c2c9bf, 0x6c590cbf, 0x0469bf41)
    case 4 => Words(0x47f7f7bc, 0x95353e03, 0xf96c32bc, 0xfd058dfd)
    case 5 => Words(0x3caaa3e8, 0xa99f9deb, 0x50f3af57, 0xadf622aa)
    case 6 => Words(0x5e390f7d, 0xf7a69296, 0xa7553dc1, 0x0aa31f6b)
    case 7 => Words(0x14f9701a, 0xe35fe28c, 0x440adf4d, 0x4ea9c026)
    case 8 => Words(0x47438735, 0xa41c65b9, 0xe016baf4, 0xaebf7ad2)
    case 9 => Words(0x549932d1, 0xf0855768, 0x1093ed9c, 0xbe2c974e)
    case _ => Words(0x13111d7f, 0xe3944a17, 0xf307a78b, 0x4d2b30c5)
  }

  /** The first bytes of the round constants behind each of them. */
  function Rcon(r: nat): bv8 {
    match r
    case 0 => 0x01
    case 1 => 0x02
    case 2 => 0x04
    case 3 => 0x08
    case 4 => 0x10
    case 5 => 0x20
    case 6 => 0x40
    case 7 => 0x80
    case 8 => 0x1b
    case 9 => 0x36
    case _ => 0x6c
  }

  /** The state of the example after the initial key addition and r full rounds. */
  function After(r: nat): State {
    match r
    case 0 => Words(0x00102030, 0x40506070, 0x8090a0b0, 0xc0d0e0f0)
    case 1 => Words(0x89d810e8, 0x855ace68, 0x2d1843d8, 0xcb128fe4)
    case 2 => Words(0x4915598f, 0x55e5d7a0, 0xdaca94fa, 0x1f0a63f7)
    case 3 => Words(0xfa636a28, 0x25b339c9, 0x40668a31, 0x57244d17)
    case 4 => Words(0x24724023, 0x6966b3fa, 0x6ed27532, 0x88425b6c)
    case 5 => Words(0xc81677bc, 0x9b7ac93b, 0x25027992, 0xb0261996)
    case 6 => Words(0xc62fe109, 0xf75eedc3, 0xcc79395d, 0x84f9cf5d)
    case 7 => Words(0xd1876c0f, 0x79c4300a, 0xb45594ad, 0xd66ff41f)
    case 8 => Words(0xfde3bad2, 0x05e5d0d7, 0x3547964e, 0xf1fe37f1)
    case _ => Words(0xbd6e7c3d, 0xf2b5779e, 0x0b61216e, 0x8b10b689)
  }

  /** A word of an expansion, from the word before and the one nk back. */
  lemma WordStep(key: seq<bv8>, nk: nat, j: nat)
    requires IsKey(key, nk) && j >= nk
    ensures j % nk == 0 ==>
      KeyWord(key, nk, j)
      == Plus(KeyWord(key, nk, j - nk),
              Plus(SubColumn(RotWord(KeyWord(key, nk, j - 1))), Column(RconByte(j / nk), 0, 0, 0)))
    ensures nk == 8 && j % nk == 4 ==>
      KeyWord(key, nk, j) == Plus(KeyWord(key, nk, j - nk), SubColumn(KeyWord(key, nk, j - 1)))
    ensures j % nk != 0 && !(nk == 8 && j % nk == 4) ==>
      KeyWord(key, nk, j) == Plus(KeyWord(key, nk, j - nk), KeyWord(key, nk, j - 1))
  {
    hide Plus, SubColumn, RotWord, RconByte;
  }

  /** The four words of a round key, and the constant behind them. */
  ghost predicate KeysAre(r: nat, k: State, rcon: bv8) {
    && KeyWord(KEY, 4, 4 * r) == k.c0 && KeyWord(KEY, 4, 4 * r + 1) == k.c1
    && KeyWord(KEY, 4, 4 * r + 2) == k.c2 && KeyWord(KEY, 4, 4 * r + 3) == k.c3
    && RconByte(r + 1) == rcon
  }

  function NextWords(k: State, rcon: bv8): State {
    var c0 := Plus(k.c0, Plus(SubColumn(RotWord(k.c3)), Column(rcon, 0, 0, 0)));
    var c1 := Plus(k.c1, c0);
    var c2 := Plus(k.c2, c1);
    State(c0, c1, c2, Plus(k.c3, c2))
  }

  lemma NextKeys(r: nat, k: State, rcon: bv8)
    requires r > 0 && KeysAre(r - 1, k, rcon)
    ensures KeysAre(r, NextWords(k, rcon), XTime(rcon))
  {
    hide Plus, SubColumn, RotWord, KeyWord, XTime;
    var j := 4 * r;
    assert j % 4 == 0 && j / 4 == r && (j + 1) % 4 == 1 && (j + 2) % 4 == 2 && (j + 3) % 4 == 3;
    WordStep(KEY, 4, j);
    WordStep(KEY, 4, j + 1);
    WordStep(KEY, 4, j + 2);
    WordStep(KEY, 4, j + 3);
  }

  lemma Key128Step(r: nat)
    requires 0 < r <= 10
    ensures NextWords(Key128(r - 1), Rcon(r - 1)) == Key128(r) && XTime(Rcon(r - 1)) == Rcon(r)
  {
    match r
    case 1 =>
    case 2 =>
    case 3 =>
    case 4 =>
    case 5 =>
    case 6 =>
    case 7 =>
    case 8 =>
    case 9 =>
    case _ =>
  }

  lemma {:induction false} Keys(r: nat)
    requires r <= 10
    ensures KeysAre(r, Key128(r), Rcon(r))
  {
    if r > 0 {
      hide *;
      Keys(r - 1);
      NextKeys(r, Key128(r - 1), Rcon(r - 1));
      Key128Step(r);
    } else {
      FirstRcon();
      hide RconByte;
    }
  }

  lemma FirstRcon()
    ensures RconByte(1) == 1 && RconByte(2) == 2
  {}

  lemma RoundKeys(r: nat)
    requires r <= 10
    ensures RoundKey(KeyExpansion(KEY, 4), r) == Key128(r)
  {
    Keys(r);
    hide KeyWord, Key128, Rcon;
  }

  function Round(s: State, k: State): State {
    AddRoundKey(MixColumns(ShiftRows(SubBytes(s))), k)
  }

  lemma Round1()
    ensures Round(Words(0x00102030, 0x40506070, 0x8090a0b0, 0xc0d0e0f0),
                  Words(0xd6aa74fd, 0xd2af72fa, 0xdaa678f1, 0xd6ab76fe))
         == Words(0x89d810e8, 0x855ace68, 0x2d1843d8, 0xcb128fe4)
  {}

  lemma Round2()
    ensures Round(Words(0x89d810e8, 0x855ace68, 0x2d1843d8, 0xcb128fe4),
                  Words(0xb692cf0b, 0x643dbdf1, 0xbe9bc500, 0x6830b3fe))
         == Words(0x4915598f, 0x55e5d7a0, 0xdaca94fa, 0x1f0a63f7)
  {}

  lemma Round3()
    ensures Round(Words(0x4915598f, 0x55e5d7a0, 0xdaca94fa, 0x1f0a63f7),
                  Words(0xb6ff744e, 0xd2c2c9bf, 0x6c590cbf, 0x0469bf41))
         == Words(0xfa636a28, 0x25b339c9, 0x40668a31, 0x57244d17)
  {}

  lemma Round4()
    ensures Round(Words(0xfa636a28, 0x25b339c9, 0x40668a31, 0x57244d17),
                  Words(0x47f7f7bc, 0x95353e03, 0xf96c32bc, 0xfd058dfd))
         == Words(0x24724023, 0x6966b3fa, 0x6ed27532, 0x88425b6c)
  {}

  lemma Round5()
    ensures Round(Words(0x24724023, 0x6966b3fa, 0x6ed27532, 0x88425b6c),
                  Words(0x3caaa3e8, 0xa99f9deb, 0x50f3af57, 0xadf622aa))
         == Words(0xc81677bc, 0x9b7ac93b, 0x25027992, 0xb0261996)
  {}

  lemma Round6()
    ensures Round(Words(0xc81677bc, 0x9b7ac93b, 0x25027992, 0xb0261996),
                  Words(0x5e390f7d, 0xf7a69296, 0xa7553dc1, 0x0aa31f6b))
         == Words(0xc62fe109, 0xf75eedc3, 0xcc79395d, 0x84f9cf5d)
  {}

  lemma Round7()
    ensures Round(Words(0xc62fe109, 0xf75eedc3, 0xcc79395d, 0x84f9cf5d),
                  Words(0x14f9701a, 0xe35fe28c, 0x440adf4d, 0x4ea9c026))
         == Words(0xd1876c0f, 0x79c4300a, 0xb45594ad, 0xd66ff41f)
  {}

  lemma Round8()
    ensures Round(Words(0xd1876c0f, 0x79c4300a, 0xb45594ad, 0xd66ff41f),
                  Words(0x47438735, 0xa41c65b9, 0xe016baf4, 0xaebf7ad2))
         == Words(0xfde3bad2, 0x05e5d0d7, 0x3547964e, 0xf1fe37f1)
  {}

  lemma Round9()
    ensures Round(Words(0xfde3bad2, 0x05e5d0d7, 0x3547964e, 0xf1fe37f1),
                  Words(0x549932d1, 0xf0855768, 0x1093ed9c, 0xbe2c974e))
         == Words(0xbd6e7c3d, 0xf2b5779e, 0x0b61216e, 0x8b10b689)
  {}


  lemma RoundStep(r: nat)
    requires 0 < r < 10
    ensures Round(After(r - 1), Key128(r)) == After(r)
  {
    hide Round, Words;
    match r
    case 1 => Round1();
    case 2 => Round2();
    case 3 => Round3();
    case 4 => Round4();
    case 5 => Round5();
    case 6 => Round6();
    case 7 => Round7();
    case 8 => Round8();
    case _ => Round9();
  }

  lemma EncryptRoundsIs(x: State, w: seq<Column>, r: nat)
    requires 4 * r + 4 <= |w|
    ensures r == 0 ==> EncryptRounds(x, w, r) == AddRoundKey(x, RoundKey(w, 0))
    ensures r > 0 ==> EncryptRounds(x, w, r) == Round(EncryptRounds(x, w, r - 1), RoundKey(w, r))
  {
    hide MixColumns, ShiftRows, SubBytes, AddRoundKey, RoundKey;
  }

  lemma FirstState()
    ensures |PLAINTEXT| == 16 && AddRoundKey(StateOf(PLAINTEXT), Key128(0)) == After(0)
  {
    assert StateOf(PLAINTEXT) == Words(0x00112233, 0x44556677, 0x8899aabb, 0xccddeeff);
  }

  lemma ExampleSchedule()
    ensures |PLAINTEXT| == 16 && IsKey(KEY, 4) && IsSchedule(KeyExpansion(KEY, 4), 10)
    ensures |KeyExpansion(KEY, 4)| == 44
  {}

  lemma {:induction false} Rounds(r: nat)
    requires r < 10
    ensures EncryptRounds(StateOf(PLAINTEXT), KeyExpansion(KEY, 4), r) == After(r)
  {
    hide *;
    ExampleSchedule();
    RoundKeys(r);
    EncryptRoundsIs(StateOf(PLAINTEXT), KeyExpansion(KEY, 4), r);
    if r > 0 {
      RoundStep(r);
      Rounds(r - 1);
    } else {
      FirstState();
    }
  }

  lemma LastState()
    ensures AddRoundKey(ShiftRows(SubBytes(Words(0xbd6e7c3d, 0xf2b5779e, 0x0b61216e, 0x8b10b689))),
                        Words(0x13111d7f, 0xe3944a17, 0xf307a78b, 0x4d2b30c5))
         == Words(0x69c4e0d8, 0x6a7b0430, 0xd8cdb780, 0x70b4c55a)
  {}

  lemma LastRound()
    ensures BytesOf(AddRoundKey(ShiftRows(SubBytes(After(9))), Key128(10))) == CIPHERTEXT
  {
    LastState();
    hide AddRoundKey, ShiftRows, SubBytes;
    assert BytesOf(Words(0x69c4e0d8, 0x6a7b0430, 0xd8cdb780, 0x70b4c55a)) == CIPHERTEXT;
  }

  lemma CipherIs(x: State, w: seq<Column>)
    requires IsSchedule(w, 10)
    ensures Cipher(x, w, 10) == AddRoundKey(ShiftRows(SubBytes(EncryptRounds(x, w, 9))), RoundKey(w, 10))
  {
    hide SubBytes, ShiftRows, AddRoundKey, EncryptRounds, RoundKey;
  }

  /** The example vector of section C.1: this key, plaintext and ciphertext. */
  lemma KnownAnswer()
    ensures BytesOf(Cipher(StateOf(PLAINTEXT), KeyExpansion(KEY, 4), 10)) == CIPHERTEXT
  {
    hide *;
    ExampleSchedule();
    CipherIs(StateOf(PLAINTEXT), KeyExpansion(KEY, 4));
    Rounds(9);
    RoundKeys(10);
    LastRound();
  }

  lemma FirstWord(key: seq<bv8>, nk: nat, i: nat)
    requires IsKey(key, nk) && i < nk
    ensures KeyWord(key, nk, i) == Column(key[4 * i], key[4 * i + 1], key[4 * i + 2], key[4 * i + 3])
  {}

  const KEY192: seq<bv8> := [
    0x00, 0x01, 0x02, 0x03, 0x04, 0x05, 0x06, 0x07, 0x08, 0x09, 0x0a, 0x0b, 0x0c, 0x0d, 0x0e, 0x0f,
    0x10, 0x11, 0x12, 0x13, 0x14, 0x15, 0x16, 0x17
  ]

  lemma FirstWords192()
    ensures IsKey(KEY192, 6)
    ensures KeyWord(KEY192, 6, 0) == Unpack(0x00010203)
    ensures KeyWord(KEY192, 6, 1) == Unpack(0x04050607)
    ensures KeyWord(KEY192, 6, 2) == Unpack(0x08090a0b)
    ensures KeyWord(KEY192, 6, 3) == Unpack(0x0c0d0e0f)
    ensures KeyWord(KEY192, 6, 4) == Unpack(0x10111213)
    ensures KeyWord(KEY192, 6, 5) == Unpack(0x14151617)
  {
    hide KeyWord;
    FirstWord(KEY192, 6, 0);
    FirstWord(KEY192, 6, 1);
    FirstWord(KEY192, 6, 2);
    FirstWord(KEY192, 6, 3);
    FirstWord(KEY192, 6, 4);
    FirstWord(KEY192, 6, 5);
  }

  /** The words behind the key of section C.2. */
  lemma Expansion192()
    ensures KeyWord(KEY192, 6, 6) == Unpack(0x5846f2f9)
    ensures KeyWord(KEY192, 6, 7) == Unpack(0x5c43f4fe)
    ensures KeyWord(KEY192, 6, 8) == Unpack(0x544afef5)
    ensures KeyWord(KEY192, 6, 9) == Unpack(0x5847f0fa)
    ensures KeyWord(KEY192, 6, 10) == Unpack(0x4856e2e9)
    ensures KeyWord(KEY192, 6, 11) == Unpack(0x5c43f4fe)
    ensures KeyWord(KEY192, 6, 12) == Unpack(0x40f949b3)
  {
    FirstWords192();
    FirstRcon();
    hide KeyWord, RconByte;
    WordStep(KEY192, 6, 6);
    assert KeyWord(KEY192, 6, 6) == Unpack(0x5846f2f9);
    WordStep(KEY192, 6, 7);
    assert KeyWord(KEY192, 6, 7) == Unpack(0x5c43f4fe);
    WordStep(KEY192, 6, 8);
    assert KeyWord(KEY192, 6, 8) == Unpack(0x544afef5);
    WordStep(KEY192, 6, 9);
    assert KeyWord(KEY192, 6, 9) == Unpack(0x5847f0fa);
    WordStep(KEY192, 6, 10);
    assert KeyWord(KEY192, 6, 10) == Unpack(0x4856e2e9);
    WordStep(KEY192, 6, 11);
    assert KeyWord(KEY192, 6, 11) == Unpack(0x5c43f4fe);
    WordStep(KEY192, 6, 12);
    assert KeyWord(KEY192, 6, 12) == Unpack(0x40f949b3);
  }

  const KEY256: seq<bv8> := [
    0x00, 0x01, 0x02, 0x03, 0x04, 0x05, 0x06, 0x07, 0x08, 0x09, 0x0a, 0x0b, 0x0c, 0x0d, 0x0e, 0x0f,
    0x10, 0x11, 0x12, 0x13, 0x14, 0x15, 0x16, 0x17, 0x18, 0x19, 0x1a, 0x1b, 0x1c, 0x1d, 0x1e, 0x1f
  ]

  lemma FirstWords256()
    ensures IsKey(KEY256, 8)
    ensures KeyWord(KEY256, 8, 0) == Unpack(0x00010203)
    ensures KeyWord(KEY256, 8, 1) == Unpack(0x04050607)
    ensures KeyWord(KEY256, 8, 2) == Unpack(0x08090a0b)
    ensures KeyWord(KEY256, 8, 3) == Unpack(0x0c0d0e0f)
    ensures KeyWord(KEY256, 8, 4) == Unpack(0x10111213)
    ensures KeyWord(KEY256, 8, 5) == Unpack(0x14151617)
    ensures KeyWord(KEY256, 8, 6) == Unpack(0x18191a1b)
    ensures KeyWord(KEY256, 8, 7) == Unpack(0x1c1d1e1f)
  {
    hide KeyWord;
    FirstWord(KEY256, 8, 0);
    FirstWord(KEY256, 8, 1);
    FirstWord(KEY256, 8, 2);
    FirstWord(KEY256, 8, 3);
    FirstWord(KEY256, 8, 4);
    FirstWord(KEY256, 8, 5);
    FirstWord(KEY256, 8, 6);
    FirstWord(KEY256, 8, 7);
  }

  /** The words behind the key of section C.3. */
  lemma Expansion256()
    ensures KeyWord(KEY256, 8, 8) == Unpack(0xa573c29f)
    ensures KeyWord(KEY256, 8, 9) == Unpack(0xa176c498)
    ensures KeyWord(KEY256, 8, 10) == Unpack(0xa97fce93)
    ensures KeyWord(KEY256, 8, 11) == Unpack(0xa572c09c)
    ensures KeyWord(KEY256, 8, 12) == Unpack(0x1651a8cd)
    ensures KeyWord(KEY256, 8, 13) == Unpack(0x0244beda)
    ensures KeyWord(KEY256, 8, 14) == Unpack(0x1a5da4c1)
    ensures KeyWord(KEY256, 8, 15) == Unpack(0x0640bade)
    ensures KeyWord(KEY256, 8, 16) == Unpack(0xae87dff0)
  {
    FirstWords256();
    FirstRcon();
    hide KeyWord, RconByte;
    WordStep(KEY256, 8, 8);
    assert KeyWord(KEY256, 8, 8) == Unpack(0xa573c29f);
    WordStep(KEY256, 8, 9);
    assert KeyWord(KEY256, 8, 9) == Unpack(0xa176c498);
    WordStep(KEY256, 8, 10);
    assert KeyWord(KEY256, 8, 10) == Unpack(0xa97fce93);
    WordStep(KEY256, 8, 11);
    assert KeyWord(KEY256, 8, 11) == Unpack(0xa572c09c);
    WordStep(KEY256, 8, 12);
    assert KeyWord(KEY256, 8, 12) == Unpack(0x1651a8cd);
    WordStep(KEY256, 8, 13);
    assert KeyWord(KEY256, 8, 13) == Unpack(0x0244beda);
    WordStep(KEY256, 8, 14);
    assert KeyWord(KEY256, 8, 14) == Unpack(0x1a5da4c1);
    WordStep(KEY256, 8, 15);
    assert KeyWord(KEY256, 8, 15) == Unpack(0x0640bade);
    WordStep(KEY256, 8, 16);
    assert KeyWord(KEY256, 8, 16) == Unpack(0xae87dff0);
  }
}
