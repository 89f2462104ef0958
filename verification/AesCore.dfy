/** The block cipher of src/aes/aes_core.c, loop form, over its lookup tables: what the table expressions of one word
    and of one round come to, in terms of the bytes of the state. */
module AesCore {
  import opened Gf256
  import opened SBoxes
  import opened Fips197
  import opened AesTables

  // ---- words of four bytes ----

  function Byte0(w: bv32): bv8 {
    (w >> 24) as bv8
  }

  function Byte1(w: bv32): bv8 {
    ((w >> 16) & 0xff) as bv8
  }

  function Byte2(w: bv32): bv8 {
    ((w >> 8) & 0xff) as bv8
  }

  function Byte3(w: bv32): bv8 {
    (w & 0xff) as bv8
  }

  function Unpack(w: bv32): Column {
    Column(Byte0(w), Byte1(w), Byte2(w), Byte3(w))
  }

  lemma PackUnpack(w: bv32)
    ensures Pack(Unpack(w)) == w
  {}

  lemma UnpackPack(c: Column)
    ensures Unpack(Pack(c)) == c
  {}

  function XorWord(v: bv32, w: bv32): bv32 {
    v ^ w
  }

  lemma PackPlus(c: Column, d: Column)
    ensures XorWord(Pack(c), Pack(d)) == Pack(Plus(c, d))
  {}

  function GetU32(b0: bv8, b1: bv8, b2: bv8, b3: bv8): bv32 {
    (b0 as bv32 << 24) ^ (b1 as bv32 << 16) ^ (b2 as bv32 << 8) ^ b3 as bv32
  }

  lemma GetU32Packs(b0: bv8, b1: bv8, b2: bv8, b3: bv8)
    ensures GetU32(b0, b1, b2, b3) == Pack(Column(b0, b1, b2, b3))
  {}

  /** A word of four bytes, the most significant first, by its bits. */
  ghost predicate IsWord(w: bv32, b0: bv8, b1: bv8, b2: bv8, b3: bv8) {
    w >> 24 == b0 as bv32 && (w >> 16) & 0xff == b1 as bv32 && (w >> 8) & 0xff == b2 as bv32 && w & 0xff == b3 as bv32
  }

  /** Such a word under exclusive or with another. */
  ghost predicate IsMaskedWord(w: bv32, k: bv32, b0: bv8, b1: bv8, b2: bv8, b3: bv8) {
    IsWord(w ^ k, b0, b1, b2, b3)
  }

  lemma PackIsWord(b0: bv8, b1: bv8, b2: bv8, b3: bv8)
    ensures IsWord(Pack(Column(b0, b1, b2, b3)), b0, b1, b2, b3)
  {}

  lemma LoadedWord(b0: bv8, b1: bv8, b2: bv8, b3: bv8, k: bv32)
    ensures IsMaskedWord(XorWord(GetU32(b0, b1, b2, b3), k), k, b0, b1, b2, b3)
  {}

  lemma StoredWord(w: bv32)
    ensures IsWord(w, Byte0(w), Byte1(w), Byte2(w), Byte3(w))
  {}

  // ---- the word expressions of the rounds ----

  /** One word of a full round of AES_encrypt. */
  function EncWord(w0: bv32, w1: bv32, w2: bv32, w3: bv32, k: bv32): bv32 {
    XorWord(XorWord(XorWord(XorWord(Te0(Byte0(w0)), Te1(Byte1(w1))), Te2(Byte2(w2))), Te3(Byte3(w3))), k)
  }

  /** One word of a full round of AES_decrypt. */
  function DecWord(w0: bv32, w1: bv32, w2: bv32, w3: bv32, k: bv32): bv32 {
    XorWord(XorWord(XorWord(XorWord(Td0(Byte0(w0)), Td1(Byte1(w1))), Td2(Byte2(w2))), Td3(Byte3(w3))), k)
  }

  /** One word of the last round of AES_encrypt, and of the key expansion: table bytes, each kept in its place. */
  function SubTe4(x0: bv8, x1: bv8, x2: bv8, x3: bv8, k: bv32): bv32 {
    XorWord(XorWord(XorWord(XorWord(Te4(x0) & 0xff000000, Te4(x1) & 0x00ff0000), Te4(x2) & 0x0000ff00),
                    Te4(x3) & 0x000000ff), k)
  }

  /** One word of the last round of AES_decrypt. */
  function SubTd4(x0: bv8, x1: bv8, x2: bv8, x3: bv8, k: bv32): bv32 {
    XorWord(XorWord(XorWord(XorWord(Td4(x0) & 0xff000000, Td4(x1) & 0x00ff0000), Td4(x2) & 0x0000ff00),
                    Td4(x3) & 0x000000ff), k)
  }

  /** One round-key word of AES_set_decrypt_key. */
  function InvMixWord(w: bv32): bv32 {
    XorWord(XorWord(XorWord(Td0((Te4(Byte0(w)) & 0xff) as bv8), Td1((Te4(Byte1(w)) & 0xff) as bv8)),
                    Td2((Te4(Byte2(w)) & 0xff) as bv8)), Td3((Te4(Byte3(w)) & 0xff) as bv8))
  }

  lemma PackSum(p: Column, q: Column, r: Column, s: Column)
    ensures XorWord(XorWord(XorWord(Pack(p), Pack(q)), Pack(r)), Pack(s))
         == Pack(Column(Sum(p.b0, q.b0, r.b0, s.b0), Sum(p.b1, q.b1, r.b1, s.b1),
                        Sum(p.b2, q.b2, r.b2, s.b2), Sum(p.b3, q.b3, r.b3, s.b3)))
  {
    hide Pack, XorWord, Add;
    PackPlus(p, q);
    PackPlus(Plus(p, q), r);
    PackPlus(Plus(Plus(p, q), r), s);
    AddLaws(Add(p.b0, q.b0), r.b0, s.b0);
    AddLaws(Add(p.b1, q.b1), r.b1, s.b1);
    AddLaws(Add(p.b2, q.b2), r.b2, s.b2);
    AddLaws(Add(p.b3, q.b3), r.b3, s.b3);
  }

  /** The four table words of a full round add up to MixColumn of the substituted bytes. */
  lemma EncWordMixes(c0: Column, c1: Column, c2: Column, c3: Column, k: Column)
    ensures EncWord(Pack(c0), Pack(c1), Pack(c2), Pack(c3), Pack(k))
         == Pack(Plus(MixColumn(SubColumn(Column(c0.b0, c1.b1, c2.b2, c3.b3))), k))
  {
    hide Pack, XorWord, SBox, Mul, Sum, Te0, Te1, Te2, Te3, Plus, Byte0, Byte1, Byte2, Byte3;
    UnpackPack(c0);
    UnpackPack(c1);
    UnpackPack(c2);
    UnpackPack(c3);
    Te0Holds(c0.b0);
    Te1Holds(c1.b1);
    Te2Holds(c2.b2);
    Te3Holds(c3.b3);
    var x0, x1, x2, x3 := SBox(c0.b0), SBox(c1.b1), SBox(c2.b2), SBox(c3.b3);
    PackSum(Column(Mul(2, x0), x0, x0, Mul(3, x0)), Column(Mul(3, x1), Mul(2, x1), x1, x1),
            Column(x2, Mul(3, x2), Mul(2, x2), x2), Column(x3, x3, Mul(3, x3), Mul(2, x3)));
    PackPlus(MixColumn(SubColumn(Column(c0.b0, c1.b1, c2.b2, c3.b3))), k);
  }

  lemma DecWordMixes(c0: Column, c1: Column, c2: Column, c3: Column, k: Column)
    ensures DecWord(Pack(c0), Pack(c1), Pack(c2), Pack(c3), Pack(k))
         == Pack(Plus(InvMixColumn(InvSubColumn(Column(c0.b0, c1.b1, c2.b2, c3.b3))), k))
  {
    hide Pack, XorWord, InvSBox, Mul, Sum, Td0, Td1, Td2, Td3, Plus, Byte0, Byte1, Byte2, Byte3;
    UnpackPack(c0);
    UnpackPack(c1);
    UnpackPack(c2);
    UnpackPack(c3);
    var x0, x1, x2, x3 := InvSBox(c0.b0), InvSBox(c1.b1), InvSBox(c2.b2), InvSBox(c3.b3);
    TdSum(c0.b0, c1.b1, c2.b2, c3.b3);
    PackPlus(InvMixColumn(Column(x0, x1, x2, x3)), k);
  }

  /** Four entries of the decryption tables add up to InvMixColumn of the substituted bytes. */
  lemma TdSum(y0: bv8, y1: bv8, y2: bv8, y3: bv8)
    ensures XorWord(XorWord(XorWord(Td0(y0), Td1(y1)), Td2(y2)), Td3(y3))
         == Pack(InvMixColumn(InvSubColumn(Column(y0, y1, y2, y3))))
  {
    hide Pack, XorWord, InvSBox, Mul, Sum, Td0, Td1, Td2, Td3;
    Td0Holds(y0);
    Td1Holds(y1);
    Td2Holds(y2);
    Td3Holds(y3);
    var x0, x1, x2, x3 := InvSBox(y0), InvSBox(y1), InvSBox(y2), InvSBox(y3);
    PackSum(Column(Mul(0x0e, x0), Mul(0x09, x0), Mul(0x0d, x0), Mul(0x0b, x0)),
            Column(Mul(0x0b, x1), Mul(0x0e, x1), Mul(0x09, x1), Mul(0x0d, x1)),
            Column(Mul(0x0d, x2), Mul(0x0b, x2), Mul(0x0e, x2), Mul(0x09, x2)),
            Column(Mul(0x09, x3), Mul(0x0d, x3), Mul(0x0b, x3), Mul(0x0e, x3)));
  }

  lemma MasksKeepBytes(a: bv8, b: bv8, c: bv8, d: bv8)
    ensures XorWord(XorWord(XorWord(Pack(Column(a, a, a, a)) & 0xff000000, Pack(Column(b, b, b, b)) & 0x00ff0000),
                            Pack(Column(c, c, c, c)) & 0x0000ff00), Pack(Column(d, d, d, d)) & 0x000000ff)
         == Pack(Column(a, b, c, d))
  {}

  lemma SubTe4Substitutes(x: Column, k: Column)
    ensures SubTe4(x.b0, x.b1, x.b2, x.b3, Pack(k)) == Pack(Plus(SubColumn(x), k))
  {
    hide Pack, XorWord, SBox, Te4, Plus;
    Te4Holds(x.b0);
    Te4Holds(x.b1);
    Te4Holds(x.b2);
    Te4Holds(x.b3);
    MasksKeepBytes(SBox(x.b0), SBox(x.b1), SBox(x.b2), SBox(x.b3));
    PackPlus(SubColumn(x), k);
  }

  lemma SubTd4Substitutes(x: Column, k: Column)
    ensures SubTd4(x.b0, x.b1, x.b2, x.b3, Pack(k)) == Pack(Plus(InvSubColumn(x), k))
  {
    hide Pack, XorWord, InvSBox, Td4, Plus;
    Td4Holds(x.b0);
    Td4Holds(x.b1);
    Td4Holds(x.b2);
    Td4Holds(x.b3);
    MasksKeepBytes(InvSBox(x.b0), InvSBox(x.b1), InvSBox(x.b2), InvSBox(x.b3));
    PackPlus(InvSubColumn(x), k);
  }

  lemma LowByte(b: bv8)
    ensures (Pack(Column(b, b, b, b)) & 0xff) as bv8 == b
  {}

  /** Looking up Td through Te4 cancels the two substitutions and leaves InvMixColumn. */
  lemma InvMixWordMixes(c: Column)
    ensures InvMixWord(Pack(c)) == Pack(InvMixColumn(c))
  {
    hide Pack, XorWord, SBox, InvSBox, Mul, Sum, Td0, Td1, Td2, Td3, Te4, Byte0, Byte1, Byte2, Byte3;
    UnpackPack(c);
    var x := SubColumn(c);
    Te4Holds(c.b0);
    Te4Holds(c.b1);
    Te4Holds(c.b2);
    Te4Holds(c.b3);
    LowByte(x.b0);
    LowByte(x.b1);
    LowByte(x.b2);
    LowByte(x.b3);
    TdSum(x.b0, x.b1, x.b2, x.b3);
    SubColumnInverts(c);
  }

  // ---- blocks and round states ----

  /** The state of sixteen input bytes, column by column. */
  function StateOf(b: seq<bv8>): State
    requires |b| == 16
  {
    State(Column(b[0], b[1], b[2], b[3]), Column(b[4], b[5], b[6], b[7]),
          Column(b[8], b[9], b[10], b[11]), Column(b[12], b[13], b[14], b[15]))
  }

  function ColumnBytes(c: Column): (b: seq<bv8>)
    ensures |b| == 4
  {
    [c.b0, c.b1, c.b2, c.b3]
  }

  function BytesOf(s: State): (b: seq<bv8>)
    ensures |b| == 16
  {
    ColumnBytes(s.c0) + ColumnBytes(s.c1) + ColumnBytes(s.c2) + ColumnBytes(s.c3)
  }

  lemma StateOfBytesOf(s: State)
    ensures StateOf(BytesOf(s)) == s
  {}

  lemma BytesOfStateOf(b: seq<bv8>)
    requires |b| == 16
    ensures BytesOf(StateOf(b)) == b
  {}

  /** Four words that hold a state. */
  ghost predicate HoldsState(w0: bv32, w1: bv32, w2: bv32, w3: bv32, s: State) {
    w0 == Pack(s.c0) && w1 == Pack(s.c1) && w2 == Pack(s.c2) && w3 == Pack(s.c3)
  }

  lemma EncRoundHolds(w0: bv32, w1: bv32, w2: bv32, w3: bv32, k0: bv32, k1: bv32, k2: bv32, k3: bv32, s: State,
        k: State)
    requires HoldsState(w0, w1, w2, w3, s) && HoldsState(k0, k1, k2, k3, k)
    ensures HoldsState(EncWord(w0, w1, w2, w3, k0), EncWord(w1, w2, w3, w0, k1),
                  EncWord(w2, w3, w0, w1, k2), EncWord(w3, w0, w1, w2, k3),
                  AddRoundKey(MixColumns(ShiftRows(SubBytes(s))), k))
  {
    hide Pack, EncWord, SBox, MixColumn, Plus;
    EncWordMixes(s.c0, s.c1, s.c2, s.c3, k.c0);
    EncWordMixes(s.c1, s.c2, s.c3, s.c0, k.c1);
    EncWordMixes(s.c2, s.c3, s.c0, s.c1, k.c2);
    EncWordMixes(s.c3, s.c0, s.c1, s.c2, k.c3);
  }

  lemma DecRoundHolds(w0: bv32, w1: bv32, w2: bv32, w3: bv32, k0: bv32, k1: bv32, k2: bv32, k3: bv32, s: State,
        k: State)
    requires HoldsState(w0, w1, w2, w3, s) && HoldsState(k0, k1, k2, k3, k)
    ensures HoldsState(DecWord(w0, w3, w2, w1, k0), DecWord(w1, w0, w3, w2, k1),
                  DecWord(w2, w1, w0, w3, k2), DecWord(w3, w2, w1, w0, k3),
                  AddRoundKey(InvMixColumns(InvShiftRows(InvSubBytes(s))), k))
  {
    hide Pack, DecWord, InvSBox, InvMixColumn, Plus;
    DecWordMixes(s.c0, s.c3, s.c2, s.c1, k.c0);
    DecWordMixes(s.c1, s.c0, s.c3, s.c2, k.c1);
    DecWordMixes(s.c2, s.c1, s.c0, s.c3, k.c2);
    DecWordMixes(s.c3, s.c2, s.c1, s.c0, k.c3);
  }

  lemma LastEncRoundHolds(w0: bv32, w1: bv32, w2: bv32, w3: bv32, k0: bv32, k1: bv32, k2: bv32, k3: bv32, s: State,
        k: State)
    requires HoldsState(w0, w1, w2, w3, s) && HoldsState(k0, k1, k2, k3, k)
    ensures HoldsState(SubTe4(Byte0(w0), Byte1(w1), Byte2(w2), Byte3(w3), k0),
                       SubTe4(Byte0(w1), Byte1(w2), Byte2(w3), Byte3(w0), k1),
                       SubTe4(Byte0(w2), Byte1(w3), Byte2(w0), Byte3(w1), k2),
                       SubTe4(Byte0(w3), Byte1(w0), Byte2(w1), Byte3(w2), k3),
                  AddRoundKey(ShiftRows(SubBytes(s)), k))
  {
    hide Pack, SubTe4, SBox, Plus, Byte0, Byte1, Byte2, Byte3;
    UnpackPack(s.c0);
    UnpackPack(s.c1);
    UnpackPack(s.c2);
    UnpackPack(s.c3);
    SubTe4Substitutes(ShiftRows(s).c0, k.c0);
    SubTe4Substitutes(ShiftRows(s).c1, k.c1);
    SubTe4Substitutes(ShiftRows(s).c2, k.c2);
    SubTe4Substitutes(ShiftRows(s).c3, k.c3);
  }

  lemma LastDecRoundHolds(w0: bv32, w1: bv32, w2: bv32, w3: bv32, k0: bv32, k1: bv32, k2: bv32, k3: bv32, s: State,
        k: State)
    requires HoldsState(w0, w1, w2, w3, s) && HoldsState(k0, k1, k2, k3, k)
    ensures HoldsState(SubTd4(Byte0(w0), Byte1(w3), Byte2(w2), Byte3(w1), k0),
                       SubTd4(Byte0(w1), Byte1(w0), Byte2(w3), Byte3(w2), k1),
                       SubTd4(Byte0(w2), Byte1(w1), Byte2(w0), Byte3(w3), k2),
                       SubTd4(Byte0(w3), Byte1(w2), Byte2(w1), Byte3(w0), k3),
                  AddRoundKey(InvShiftRows(InvSubBytes(s)), k))
  {
    hide Pack, SubTd4, InvSBox, Plus, Byte0, Byte1, Byte2, Byte3;
    UnpackPack(s.c0);
    UnpackPack(s.c1);
    UnpackPack(s.c2);
    UnpackPack(s.c3);
    SubTd4Substitutes(InvShiftRows(s).c0, k.c0);
    SubTd4Substitutes(InvShiftRows(s).c1, k.c1);
    SubTd4Substitutes(InvShiftRows(s).c2, k.c2);
    SubTd4Substitutes(InvShiftRows(s).c3, k.c3);
  }
}
