/** The byte substitution tables of FIPS 197, Figures 7 and 14, and what they mean: one is the affine image of the
    inverse in the field of 256 elements, and the other undoes it. Both are literals, written as rows of sixteen
    bytes. */
module SBoxes {
  import opened Gf256

  // The entry of x in a table of sixteen rows of sixteen bytes, each row written as one literal.
  function Entry8(x: bv8,
                   r0: bv128, r1: bv128, r2: bv128, r3: bv128, r4: bv128, r5: bv128, r6: bv128, r7: bv128,
                   r8: bv128, r9: bv128, ra: bv128, rb: bv128, rc: bv128, rd: bv128, re: bv128, rf: bv128): bv8
  {
    var row :=
      if x < 0x80 then
        if x < 0x40 then
          if x < 0x20 then
            if x < 0x10 then r0 else r1
          else
            if x < 0x30 then r2 else r3
        else
          if x < 0x60 then
            if x < 0x50 then r4 else r5
          else
            if x < 0x70 then r6 else r7
      else
        if x < 0xc0 then
          if x < 0xa0 then
            if x < 0x90 then r8 else r9
          else
            if x < 0xb0 then ra else rb
        else
          if x < 0xe0 then
            if x < 0xd0 then rc else rd
          else
            if x < 0xf0 then re else rf;
    var half: bv64 := if x & 8 == 0 then (row >> 64) as bv64 else (row & 0xffffffffffffffff) as bv64;
    var quarter: bv32 := if x & 4 == 0 then (half >> 32) as bv32 else (half & 0xffffffff) as bv32;
    var pair: bv16 := if x & 2 == 0 then (quarter >> 16) as bv16 else (quarter & 0xffff) as bv16;
    if x & 1 == 0 then (pair >> 8) as bv8 else (pair & 0xff) as bv8
  }

  /** The S-box, Figure 7. */
  function SBox(x: bv8): bv8 {
    Entry8(x,
      0x637c777bf26b6fc53001672bfed7ab76,
      0xca82c97dfa5947f0add4a2af9ca472c0,
      0xb7fd9326363ff7cc34a5e5f171d83115,
      0x04c723c31896059a071280e2eb27b275,
      0x09832c1a1b6e5aa0523bd6b329e32f84,
      0x53d100ed20fcb15b6acbbe394a4c58cf,
      0xd0efaafb434d338545f9027f503c9fa8,
      0x51a3408f929d38f5bcb6da2110fff3d2,
      0xcd0c13ec5f974417c4a77e3d645d1973,
      0x60814fdc222a908846eeb814de5e0bdb,
      0xe0323a0a4906245cc2d3ac629195e479,
      0xe7c8376d8dd54ea96c56f4ea657aae08,
      0xba78252e1ca6b4c6e8dd741f4bbd8b8a,
      0x703eb5664803f60e613557b986c11d9e,
      0xe1f8981169d98e949b1e87e9ce5528df,
      0x8ca1890dbfe6426841992d0fb054bb16)
  }

  /** The inverse S-box, Figure 14. */
  function InvSBox(x: bv8): bv8 {
    Entry8(x,
      0x52096ad53036a538bf40a39e81f3d7fb,
      0x7ce339829b2fff87348e4344c4dee9cb,
      0x547b9432a6c2233dee4c950b42fac34e,
      0x082ea16628d924b2765ba2496d8bd125,
      0x72f8f66486689816d4a45ccc5d65b692,
      0x6c704850fdedb9da5e154657a78d9d84,
      0x90d8ab008cbcd30af7e45805b8b34506,
      0xd02c1e8fca3f0f02c1afbd0301138a6b,
      0x3a9111414f67dcea97f2cfcef0b4e673,
      0x96ac7422e7ad3585e2f937e81c75df6e,
      0x47f11a711d29c5896fb7620eaa18be1b,
      0xfc563e4bc6d279209adbc0fe78cd5af4,
      0x1fdda8338807c731b11210592780ec5f,
      0x60517fa919b54a0d2de57a9f93c99cef,
      0xa0e03b4dae2af5b0c8ebbb3c83539961,
      0x172b047eba77d626e169146355210c7d)
  }

  lemma InvSBoxUndoesSBox(x: bv8)
    ensures InvSBox(SBox(x)) == x
  {}

  /** The affine map of section 5.1.1: bits i, i+4, i+5, i+6, i+7 of b and bit i of 0x63. */
  function Affine(b: bv8): bv8 {
    b ^ b.RotateLeft(1) ^ b.RotateLeft(2) ^ b.RotateLeft(3) ^ b.RotateLeft(4) ^ 0x63
  }

  /** The map that undoes Affine. */
  function InvAffine(b: bv8): bv8 {
    b.RotateLeft(1) ^ b.RotateLeft(3) ^ b.RotateLeft(6) ^ 0x05
  }

  lemma InvAffineUndoesAffine(b: bv8)
    ensures Affine(InvAffine(b)) == b && InvAffine(Affine(b)) == b
  {}

  /** Section 5.1.1: the S-box sends x to the affine image of its multiplicative inverse, and 0 to that of 0. */
  lemma SBoxIsAffineInverse(x: bv8)
    ensures var y := InvAffine(SBox(x));
      && SBox(x) == Affine(y)
      && Mul(x, y) == if x == 0 then 0 else 1
  {
    InvAffineUndoesAffine(SBox(x));
  }
}
