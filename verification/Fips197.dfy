/** The cipher, the key expansion and the equivalent inverse cipher, as FIPS 197 defines them: on states of four
    columns, with sections 5.1 to 5.3.5 named where they are followed, and that the two undo each other. */
module Fips197 {
  import opened Gf256
  import opened SBoxes

  /** The state: four columns, each of four bytes. */
  datatype State = State(c0: Column, c1: Column, c2: Column, c3: Column)

  function SubColumn(c: Column): Column {
    Column(SBox(c.b0), SBox(c.b1), SBox(c.b2), SBox(c.b3))
  }

  function InvSubColumn(c: Column): Column {
    Column(InvSBox(c.b0), InvSBox(c.b1), InvSBox(c.b2), InvSBox(c.b3))
  }

  function SubBytes(s: State): State {
    State(SubColumn(s.c0), SubColumn(s.c1), SubColumn(s.c2), SubColumn(s.c3))
  }

  function InvSubBytes(s: State): State {
    State(InvSubColumn(s.c0), InvSubColumn(s.c1), InvSubColumn(s.c2), InvSubColumn(s.c3))
  }

  /** Row r moves r places to the left, section 5.1.2. */
  function ShiftRows(s: State): State {
    State(Column(s.c0.b0, s.c1.b1, s.c2.b2, s.c3.b3),
          Column(s.c1.b0, s.c2.b1, s.c3.b2, s.c0.b3),
          Column(s.c2.b0, s.c3.b1, s.c0.b2, s.c1.b3),
          Column(s.c3.b0, s.c0.b1, s.c1.b2, s.c2.b3))
  }

  /** Row r moves r places to the right, section 5.3.1. */
  function InvShiftRows(s: State): State {
    State(Column(s.c0.b0, s.c3.b1, s.c2.b2, s.c1.b3),
          Column(s.c1.b0, s.c0.b1, s.c3.b2, s.c2.b3),
          Column(s.c2.b0, s.c1.b1, s.c0.b2, s.c3.b3),
          Column(s.c3.b0, s.c2.b1, s.c1.b2, s.c0.b3))
  }

  function MixColumns(s: State): State {
    State(MixColumn(s.c0), MixColumn(s.c1), MixColumn(s.c2), MixColumn(s.c3))
  }

  function InvMixColumns(s: State): State {
    State(InvMixColumn(s.c0), InvMixColumn(s.c1), InvMixColumn(s.c2), InvMixColumn(s.c3))
  }

  function AddRoundKey(s: State, k: State): State {
    State(Plus(s.c0, k.c0), Plus(s.c1, k.c1), Plus(s.c2, k.c2), Plus(s.c3, k.c3))
  }

  /** A key schedule is a sequence of words, four for the initial key addition and four for each of nr rounds. */
  ghost predicate IsSchedule(w: seq<Column>, nr: nat) {
    nr > 0 && |w| == 4 * (nr + 1)
  }

  function RoundKey(w: seq<Column>, r: nat): State
    requires 4 * r + 4 <= |w|
  {
    State(w[4 * r], w[4 * r + 1], w[4 * r + 2], w[4 * r + 3])
  }

  /** The state after the initial key addition and r full rounds. */
  ghost function EncryptRounds(x: State, w: seq<Column>, r: nat): State
    requires 4 * r + 4 <= |w|
  {
    if r == 0 then AddRoundKey(x, RoundKey(w, 0))
    else AddRoundKey(MixColumns(ShiftRows(SubBytes(EncryptRounds(x, w, r - 1)))), RoundKey(w, r))
  }

  /** The cipher of section 5.1: nr - 1 full rounds, and a last one without MixColumns. */
  ghost function Cipher(x: State, w: seq<Column>, nr: nat): State
    requires IsSchedule(w, nr)
  {
    AddRoundKey(ShiftRows(SubBytes(EncryptRounds(x, w, nr - 1))), RoundKey(w, nr))
  }

  /** The state of the equivalent inverse cipher after the initial key addition and r full rounds. */
  ghost function DecryptRounds(x: State, dw: seq<Column>, r: nat): State
    requires 4 * r + 4 <= |dw|
  {
    if r == 0 then AddRoundKey(x, RoundKey(dw, 0))
    else AddRoundKey(InvMixColumns(InvShiftRows(InvSubBytes(DecryptRounds(x, dw, r - 1)))), RoundKey(dw, r))
  }

  /** The equivalent inverse cipher of section 5.3.5. */
  ghost function EqInvCipher(x: State, dw: seq<Column>, nr: nat): State
    requires IsSchedule(dw, nr)
  {
    AddRoundKey(InvShiftRows(InvSubBytes(DecryptRounds(x, dw, nr - 1))), RoundKey(dw, nr))
  }

  /** Where word q goes when the order of the round keys 0..nr is reversed. */
  function Mirror(q: nat, nr: nat): (m: nat)
    requires q < 4 * (nr + 1)
    ensures m < 4 * (nr + 1) && m % 4 == q % 4 && m / 4 == nr - q / 4
  {
    4 * (nr - q / 4) + q % 4
  }

  /** The schedule of the equivalent inverse cipher: the round keys in reverse order, InvMixColumns applied to all but
      the first and the last. */
  ghost function InverseSchedule(w: seq<Column>, nr: nat): (dw: seq<Column>)
    requires IsSchedule(w, nr)
    ensures IsSchedule(dw, nr)
  {
    seq(|w|, q requires 0 <= q < |w| =>
      if 4 <= q < 4 * nr then InvMixColumn(w[Mirror(q, nr)]) else w[Mirror(q, nr)])
  }

  lemma InverseScheduleKeys(w: seq<Column>, nr: nat, r: nat)
    requires IsSchedule(w, nr) && r <= nr
    ensures RoundKey(InverseSchedule(w, nr), r)
         == if 0 < r < nr then InvMixColumns(RoundKey(w, nr - r)) else RoundKey(w, nr - r)
  {
    hide InvMixColumn;
  }

  /** The four bytes of a word move one place to the left. */
  function RotWord(c: Column): Column {
    Column(c.b1, c.b2, c.b3, c.b0)
  }

  /** The first byte of the i-th round constant: x to the power i - 1. */
  function RconByte(i: nat): bv8
    requires i > 0
  {
    if i == 1 then 1 else XTime(RconByte(i - 1))
  }

  ghost predicate IsKey(key: seq<bv8>, nk: nat) {
    (nk == 4 || nk == 6 || nk == 8) && |key| == 4 * nk
  }

  /** The i-th word of the expansion of a key of nk words, section 5.2. */
  function KeyWord(key: seq<bv8>, nk: nat, i: nat): Column
    requires IsKey(key, nk)
  {
    if i < nk then
      Column(key[4 * i], key[4 * i + 1], key[4 * i + 2], key[4 * i + 3])
    else
      var temp := KeyWord(key, nk, i - 1);
      var mask :=
        if i % nk == 0 then Plus(SubColumn(RotWord(temp)), Column(RconByte(i / nk), 0, 0, 0))
        else if nk > 6 && i % nk == 4 then SubColumn(temp)
        else temp;
      Plus(KeyWord(key, nk, i - nk), mask)
  }

  /** The expanded key for the nk + 6 rounds that a key of nk words calls for. */
  ghost function KeyExpansion(key: seq<bv8>, nk: nat): (w: seq<Column>)
    requires IsKey(key, nk)
    ensures IsSchedule(w, nk + 6)
  {
    seq(4 * (nk + 7), i requires i >= 0 => KeyWord(key, nk, i))
  }

  lemma SubBytesInverts(s: State)
    ensures InvSubBytes(SubBytes(s)) == s
  {
    hide SBox, InvSBox;
    SubColumnInverts(s.c0);
    SubColumnInverts(s.c1);
    SubColumnInverts(s.c2);
    SubColumnInverts(s.c3);
  }

  lemma SubColumnInverts(c: Column)
    ensures InvSubColumn(SubColumn(c)) == c
  {
    hide SBox, InvSBox;
    InvSBoxUndoesSBox(c.b0);
    InvSBoxUndoesSBox(c.b1);
    InvSBoxUndoesSBox(c.b2);
    InvSBoxUndoesSBox(c.b3);
  }

  /** Bytes are substituted one by one, so moving them first or last makes no difference. */
  lemma InvSubBytesCommutesWithInvShiftRows(s: State)
    ensures InvShiftRows(InvSubBytes(s)) == InvSubBytes(InvShiftRows(s))
  {
    hide InvSBox;
  }

  lemma PlusCancels(c: Column, k: Column)
    ensures Plus(Plus(c, k), k) == c
  {
    hide Add;
    Cancel(c.b0, k.b0);
    Cancel(c.b1, k.b1);
    Cancel(c.b2, k.b2);
    Cancel(c.b3, k.b3);
  }

  lemma AddRoundKeyCancels(s: State, k: State)
    ensures AddRoundKey(AddRoundKey(s, k), k) == s
  {
    hide Plus;
    PlusCancels(s.c0, k.c0);
    PlusCancels(s.c1, k.c1);
    PlusCancels(s.c2, k.c2);
    PlusCancels(s.c3, k.c3);
  }

  lemma MixColumnsInvert(s: State)
    ensures InvMixColumns(MixColumns(s)) == s
  {
    hide MixColumn, InvMixColumn;
    MixColumnInverts(s.c0);
    MixColumnInverts(s.c1);
    MixColumnInverts(s.c2);
    MixColumnInverts(s.c3);
  }

  lemma InvMixColumnsAdds(s: State, k: State)
    ensures InvMixColumns(AddRoundKey(s, k)) == AddRoundKey(InvMixColumns(s), InvMixColumns(k))
  {
    hide InvMixColumn, Plus;
    InvMixColumnAdds(s.c0, k.c0);
    InvMixColumnAdds(s.c1, k.c1);
    InvMixColumnAdds(s.c2, k.c2);
    InvMixColumnAdds(s.c3, k.c3);
  }

  lemma ShiftRowsInverts(s: State)
    ensures InvShiftRows(ShiftRows(s)) == s
  {}

  /** After r rounds of the inverse cipher the state is that of the cipher with nr - 1 - r full rounds done, its bytes
      substituted and its rows shifted. */
  lemma {:induction false} RoundsMeet(x: State, w: seq<Column>, nr: nat, r: nat)
    requires IsSchedule(w, nr) && r < nr
    ensures DecryptRounds(Cipher(x, w, nr), InverseSchedule(w, nr), r)
         == ShiftRows(SubBytes(EncryptRounds(x, w, nr - 1 - r)))
  {
    hide SubBytes, InvSubBytes, ShiftRows, InvShiftRows, MixColumns, InvMixColumns, AddRoundKey, InverseSchedule;
    InverseScheduleKeys(w, nr, r);
    if r == 0 {
      AddRoundKeyCancels(ShiftRows(SubBytes(EncryptRounds(x, w, nr - 1))), RoundKey(w, nr));
    } else {
      RoundsMeet(x, w, nr, r - 1);
      var before := EncryptRounds(x, w, nr - r);
      var mixed := ShiftRows(SubBytes(EncryptRounds(x, w, nr - 1 - r)));
      var key := RoundKey(w, nr - r);
      assert before == AddRoundKey(MixColumns(mixed), key);
      InverseRoundUndoes(before);
      InvMixColumnsAdds(MixColumns(mixed), key);
      MixColumnsInvert(mixed);
      AddRoundKeyCancels(mixed, InvMixColumns(key));
    }
  }

  lemma InverseRoundUndoes(s: State)
    ensures InvShiftRows(InvSubBytes(ShiftRows(SubBytes(s)))) == s
  {
    hide SubBytes, InvSubBytes, ShiftRows, InvShiftRows;
    InvSubBytesCommutesWithInvShiftRows(ShiftRows(SubBytes(s)));
    ShiftRowsInverts(SubBytes(s));
    SubBytesInverts(s);
  }

  /** The equivalent inverse cipher undoes the cipher, whatever the key words and the number of rounds. */
  lemma EqInvCipherUndoesCipher(x: State, w: seq<Column>, nr: nat)
    requires IsSchedule(w, nr)
    ensures EqInvCipher(Cipher(x, w, nr), InverseSchedule(w, nr), nr) == x
  {
    hide SubBytes, InvSubBytes, ShiftRows, InvShiftRows, MixColumns, InvMixColumns, AddRoundKey, InverseSchedule;
    InverseScheduleKeys(w, nr, nr);
    RoundsMeet(x, w, nr, nr - 1);
    InverseRoundUndoes(EncryptRounds(x, w, 0));
    AddRoundKeyCancels(x, RoundKey(w, 0));
  }
}
