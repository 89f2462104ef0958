/** Arithmetic of GF(2^8) and of four-byte columns, sections 4.2 and 4.3 of FIPS 197: addition is exclusive or, and
    multiplication is done by shifting and reducing. The maps of columns are linear and undo each other. */
module Gf256 {

  /** Addition of two field elements. */
  function Add(a: bv8, b: bv8): bv8 {
    a ^ b
  }

  /** Multiplication by x modulo x^8 + x^4 + x^3 + x + 1: shift left, and reduce when the top bit falls out. */
  function XTime(b: bv8): bv8 {
    Add(b << 1, (0 - (b >> 7)) & 0x1b)
  }

  /** Multiplication of two field elements, as the sum of the multiples of b picked by the bits of a. */
  function Mul(a: bv8, b: bv8): bv8 {
    var b1 := XTime(b);
    var b2 := XTime(b1);
    var b3 := XTime(b2);
    var b4 := XTime(b3);
    var b5 := XTime(b4);
    var b6 := XTime(b5);
    var b7 := XTime(b6);
    Add(Add(Add(if a & 0x01 == 0 then 0 else b, if a & 0x02 == 0 then 0 else b1),
            Add(if a & 0x04 == 0 then 0 else b2, if a & 0x08 == 0 then 0 else b3)),
        Add(Add(if a & 0x10 == 0 then 0 else b4, if a & 0x20 == 0 then 0 else b5),
            Add(if a & 0x40 == 0 then 0 else b6, if a & 0x80 == 0 then 0 else b7)))
  }

  lemma AddLaws(a: bv8, b: bv8, c: bv8)
    ensures Add(a, b) == Add(b, a)
    ensures Add(Add(a, b), c) == Add(a, Add(b, c))
  {}

  lemma Cancel(a: bv8, b: bv8)
    ensures Add(Add(a, b), b) == a
    ensures Add(a, Add(a, b)) == b
  {}

  lemma AddZero()
    ensures forall a :: Add(a, 0) == a && Add(0, a) == a
    ensures forall a :: Add(a, a) == 0
  {}

  /** The laws of addition, for all elements at once. */
  lemma AddIsGroup()
    ensures forall a, b :: Add(a, b) == Add(b, a)
    ensures forall a, b, c :: Add(Add(a, b), c) == Add(a, Add(b, c))
    ensures forall a, b :: Add(a, Add(a, b)) == b
    ensures forall a :: Add(a, a) == 0 && Add(a, 0) == a
  {
    hide Add;
    forall a, b ensures Add(a, b) == Add(b, a) && Add(a, Add(a, b)) == b {
      AddLaws(a, b, 0);
      Cancel(a, b);
    }
    forall a, b, c ensures Add(Add(a, b), c) == Add(a, Add(b, c)) {
      AddLaws(a, b, c);
    }
    AddZero();
  }

  lemma Interchange(a: bv8, b: bv8, c: bv8, d: bv8)
    ensures Add(Add(a, b), Add(c, d)) == Add(Add(a, c), Add(b, d))
  {
    hide Add;
    AddIsGroup();
  }

  lemma XTimeAdds(a: bv8, b: bv8)
    ensures XTime(Add(a, b)) == Add(XTime(a), XTime(b))
  {}

  /** The six constant multipliers of the cipher, written with XTime. */
  lemma MulConstants(b: bv8)
    ensures Mul(0x02, b) == XTime(b)
    ensures Mul(0x03, b) == Add(b, XTime(b))
    ensures Mul(0x09, b) == Add(b, XTime(XTime(XTime(b))))
  {
    hide XTime, Add;
    AddZero();
  }

  lemma MulConstants'(b: bv8)
    ensures Mul(0x0b, b) == Add(Add(b, XTime(b)), XTime(XTime(XTime(b))))
    ensures Mul(0x0d, b) == Add(b, Add(XTime(XTime(b)), XTime(XTime(XTime(b)))))
    ensures Mul(0x0e, b) == Add(XTime(b), Add(XTime(XTime(b)), XTime(XTime(XTime(b)))))
  {
    hide XTime, Add;
    AddZero();
  }

  /** Multiplication by a constant of the inverse cipher distributes over addition. */
  lemma MulAdds(a: bv8, b: bv8)
    ensures Mul(0x09, Add(a, b)) == Add(Mul(0x09, a), Mul(0x09, b))
    ensures Mul(0x0b, Add(a, b)) == Add(Mul(0x0b, a), Mul(0x0b, b))
    ensures Mul(0x0d, Add(a, b)) == Add(Mul(0x0d, a), Mul(0x0d, b))
    ensures Mul(0x0e, Add(a, b)) == Add(Mul(0x0e, a), Mul(0x0e, b))
  {
    hide XTime, Add, Mul;
    MulConstants(a);
    MulConstants'(a);
    MulConstants(b);
    MulConstants'(b);
    MulConstants(Add(a, b));
    MulConstants'(Add(a, b));
    var a1, b1 := XTime(a), XTime(b);
    var a2, b2 := XTime(a1), XTime(b1);
    var a3, b3 := XTime(a2), XTime(b2);
    XTimeAdds(a, b);
    XTimeAdds(a1, b1);
    XTimeAdds(a2, b2);
    Interchange(a, b, a3, b3);
    Interchange(a, b, a1, b1);
    Interchange(Add(a, a1), Add(b, b1), a3, b3);
    Interchange(a2, b2, a3, b3);
    Interchange(a, b, Add(a2, a3), Add(b2, b3));
    Interchange(a1, b1, Add(a2, a3), Add(b2, b3));
  }

  /** A word of four bytes: one column of the cipher state, or one word of a key schedule. */
  datatype Column = Column(b0: bv8, b1: bv8, b2: bv8, b3: bv8)

  function Plus(c: Column, d: Column): Column {
    Column(Add(c.b0, d.b0), Add(c.b1, d.b1), Add(c.b2, d.b2), Add(c.b3, d.b3))
  }

  function Sum(a: bv8, b: bv8, c: bv8, d: bv8): bv8 {
    Add(Add(a, b), Add(c, d))
  }

  /** One column of MixColumns, section 5.1.3. */
  function MixColumn(c: Column): Column {
    Column(Sum(Mul(2, c.b0), Mul(3, c.b1), c.b2, c.b3),
           Sum(c.b0, Mul(2, c.b1), Mul(3, c.b2), c.b3),
           Sum(c.b0, c.b1, Mul(2, c.b2), Mul(3, c.b3)),
           Sum(Mul(3, c.b0), c.b1, c.b2, Mul(2, c.b3)))
  }

  /** One column of InvMixColumns, section 5.3.3. */
  function InvMixColumn(c: Column): Column {
    Column(Sum(Mul(0x0e, c.b0), Mul(0x0b, c.b1), Mul(0x0d, c.b2), Mul(0x09, c.b3)),
           Sum(Mul(0x09, c.b0), Mul(0x0e, c.b1), Mul(0x0b, c.b2), Mul(0x0d, c.b3)),
           Sum(Mul(0x0d, c.b0), Mul(0x09, c.b1), Mul(0x0e, c.b2), Mul(0x0b, c.b3)),
           Sum(Mul(0x0b, c.b0), Mul(0x0d, c.b1), Mul(0x09, c.b2), Mul(0x0e, c.b3)))
  }

  lemma SumAdds(a0: bv8, a1: bv8, a2: bv8, a3: bv8, b0: bv8, b1: bv8, b2: bv8, b3: bv8)
    ensures Sum(Add(a0, b0), Add(a1, b1), Add(a2, b2), Add(a3, b3)) == Add(Sum(a0, a1, a2, a3), Sum(b0, b1, b2, b3))
  {
    hide Add;
    Interchange(a0, b0, a1, b1);
    Interchange(a2, b2, a3, b3);
    Interchange(Add(a0, a1), Add(b0, b1), Add(a2, a3), Add(b2, b3));
  }

  /** InvMixColumn is linear. */
  lemma InvMixColumnAdds(c: Column, d: Column)
    ensures InvMixColumn(Plus(c, d)) == Plus(InvMixColumn(c), InvMixColumn(d))
  {
    hide Add, Mul, Sum;
    MulAdds(c.b0, d.b0);
    MulAdds(c.b1, d.b1);
    MulAdds(c.b2, d.b2);
    MulAdds(c.b3, d.b3);
    SumAdds(Mul(0x0e, c.b0), Mul(0x0b, c.b1), Mul(0x0d, c.b2), Mul(0x09, c.b3),
            Mul(0x0e, d.b0), Mul(0x0b, d.b1), Mul(0x0d, d.b2), Mul(0x09, d.b3));
    SumAdds(Mul(0x09, c.b0), Mul(0x0e, c.b1), Mul(0x0b, c.b2), Mul(0x0d, c.b3),
            Mul(0x09, d.b0), Mul(0x0e, d.b1), Mul(0x0b, d.b2), Mul(0x0d, d.b3));
    SumAdds(Mul(0x0d, c.b0), Mul(0x09, c.b1), Mul(0x0e, c.b2), Mul(0x0b, c.b3),
            Mul(0x0d, d.b0), Mul(0x09, d.b1), Mul(0x0e, d.b2), Mul(0x0b, d.b3));
    SumAdds(Mul(0x0b, c.b0), Mul(0x0d, c.b1), Mul(0x09, c.b2), Mul(0x0e, c.b3),
            Mul(0x0b, d.b0), Mul(0x0d, d.b1), Mul(0x09, d.b2), Mul(0x0e, d.b3));
  }

  function Rotate(c: Column): Column {
    Column(c.b1, c.b2, c.b3, c.b0)
  }

  lemma SumRotates(a: bv8, b: bv8, c: bv8, d: bv8)
    ensures Sum(a, b, c, d) == Sum(b, c, d, a)
  {
    hide Add;
    AddIsGroup();
  }

  /** Both column maps commute with rotating the column: their matrices are circulant. */
  lemma MixersRotate(c: Column)
    ensures MixColumn(Rotate(c)) == Rotate(MixColumn(c))
    ensures InvMixColumn(Rotate(c)) == Rotate(InvMixColumn(c))
  {
    hide Sum, Mul;
    SumRotates(c.b0, Mul(2, c.b1), Mul(3, c.b2), c.b3);
    SumRotates(c.b0, c.b1, Mul(2, c.b2), Mul(3, c.b3));
    SumRotates(Mul(3, c.b0), c.b1, c.b2, Mul(2, c.b3));
    SumRotates(Mul(2, c.b0), Mul(3, c.b1), c.b2, c.b3);
    SumRotates(Mul(0x0e, c.b0), Mul(0x0b, c.b1), Mul(0x0d, c.b2), Mul(0x09, c.b3));
    SumRotates(Mul(0x09, c.b0), Mul(0x0e, c.b1), Mul(0x0b, c.b2), Mul(0x0d, c.b3));
    SumRotates(Mul(0x0d, c.b0), Mul(0x09, c.b1), Mul(0x0e, c.b2), Mul(0x0b, c.b3));
    SumRotates(Mul(0x0b, c.b0), Mul(0x0d, c.b1), Mul(0x09, c.b2), Mul(0x0e, c.b3));
  }

  lemma MulSum(a: bv8, b: bv8, c: bv8, d: bv8)
    ensures Mul(0x09, Sum(a, b, c, d)) == Sum(Mul(0x09, a), Mul(0x09, b), Mul(0x09, c), Mul(0x09, d))
    ensures Mul(0x0b, Sum(a, b, c, d)) == Sum(Mul(0x0b, a), Mul(0x0b, b), Mul(0x0b, c), Mul(0x0b, d))
    ensures Mul(0x0d, Sum(a, b, c, d)) == Sum(Mul(0x0d, a), Mul(0x0d, b), Mul(0x0d, c), Mul(0x0d, d))
    ensures Mul(0x0e, Sum(a, b, c, d)) == Sum(Mul(0x0e, a), Mul(0x0e, b), Mul(0x0e, c), Mul(0x0e, d))
  {
    hide Add, Mul;
    MulAdds(a, b);
    MulAdds(c, d);
    MulAdds(Add(a, b), Add(c, d));
  }

  // The four sums that the product of the two matrices comes to, over the multiples of a byte by powers of x.

  lemma PowerSum0(x: bv8, x1: bv8, x2: bv8, x3: bv8, x4: bv8)
    ensures Sum(Add(x2, Add(x3, x4)), Add(Add(x, x1), x3), Add(x, Add(x2, x3)), Add(Add(x, x3), Add(x1, x4))) == x
  {
    hide Add;
    AddIsGroup();
  }

  lemma PowerSum1(x: bv8, x1: bv8, x2: bv8, x3: bv8, x4: bv8)
    ensures Sum(Add(Add(x1, Add(x2, x3)), Add(x2, Add(x3, x4))), Add(Add(x1, x2), x4), Add(x, Add(x2, x3)),
                Add(x, x3)) == 0
  {
    hide Add;
    AddIsGroup();
  }

  lemma PowerSum2(x: bv8, x1: bv8, x2: bv8, x3: bv8, x4: bv8)
    ensures Sum(Add(x1, Add(x2, x3)), Add(Add(Add(x, x1), x3), Add(Add(x1, x2), x4)), Add(x1, Add(x3, x4)),
                Add(x, x3)) == 0
  {
    hide Add;
    AddIsGroup();
  }

  lemma PowerSum3(x: bv8, x1: bv8, x2: bv8, x3: bv8, x4: bv8)
    ensures Sum(Add(x1, Add(x2, x3)), Add(Add(x, x1), x3), Add(Add(x, Add(x2, x3)), Add(x1, Add(x3, x4))),
                Add(x1, x4)) == 0
  {
    hide Add;
    AddIsGroup();
  }

  /** The products of the two matrices, row by column: the multiples of one byte add up to itself or to zero. */
  lemma Products(x: bv8)
    ensures Sum(Mul(0x0e, Mul(2, x)), Mul(0x0b, x), Mul(0x0d, x), Mul(0x09, Mul(3, x))) == x
    ensures Sum(Mul(0x0e, Mul(3, x)), Mul(0x0b, Mul(2, x)), Mul(0x0d, x), Mul(0x09, x)) == 0
    ensures Sum(Mul(0x0e, x), Mul(0x0b, Mul(3, x)), Mul(0x0d, Mul(2, x)), Mul(0x09, x)) == 0
    ensures Sum(Mul(0x0e, x), Mul(0x0b, x), Mul(0x0d, Mul(3, x)), Mul(0x09, Mul(2, x))) == 0
  {
    hide Mul, XTime, Add, Sum;
    var x1 := XTime(x);
    MulConstants(x);
    MulConstants'(x);
    MulConstants(x1);
    MulConstants'(x1);
    MulAdds(x, x1);
    var x2 := XTime(x1);
    var x3 := XTime(x2);
    var x4 := XTime(x3);
    PowerSum0(x, x1, x2, x3, x4);
    PowerSum1(x, x1, x2, x3, x4);
    PowerSum2(x, x1, x2, x3, x4);
    PowerSum3(x, x1, x2, x3, x4);
  }

  lemma SumTransposes(a: Column, b: Column, c: Column, d: Column)
    ensures Sum(Sum(a.b0, a.b1, a.b2, a.b3), Sum(b.b0, b.b1, b.b2, b.b3),
                Sum(c.b0, c.b1, c.b2, c.b3), Sum(d.b0, d.b1, d.b2, d.b3))
         == Sum(Sum(a.b0, b.b0, c.b0, d.b0), Sum(a.b1, b.b1, c.b1, d.b1),
                Sum(a.b2, b.b2, c.b2, d.b2), Sum(a.b3, b.b3, c.b3, d.b3))
  {
    SumAdds(a.b0, a.b1, a.b2, a.b3, b.b0, b.b1, b.b2, b.b3);
    SumAdds(c.b0, c.b1, c.b2, c.b3, d.b0, d.b1, d.b2, d.b3);
    SumAdds(Add(a.b0, b.b0), Add(a.b1, b.b1), Add(a.b2, b.b2), Add(a.b3, b.b3),
            Add(c.b0, d.b0), Add(c.b1, d.b1), Add(c.b2, d.b2), Add(c.b3, d.b3));
    hide Add;
  }

  lemma FirstByteRestored(c: Column)
    ensures InvMixColumn(MixColumn(c)).b0 == c.b0
  {
    hide Add, Mul, Sum;
    var m := MixColumn(c);
    MulSum(Mul(2, c.b0), Mul(3, c.b1), c.b2, c.b3);
    MulSum(c.b0, Mul(2, c.b1), Mul(3, c.b2), c.b3);
    MulSum(c.b0, c.b1, Mul(2, c.b2), Mul(3, c.b3));
    MulSum(Mul(3, c.b0), c.b1, c.b2, Mul(2, c.b3));
    SumTransposes(Column(Mul(0x0e, Mul(2, c.b0)), Mul(0x0e, Mul(3, c.b1)), Mul(0x0e, c.b2), Mul(0x0e, c.b3)),
                  Column(Mul(0x0b, c.b0), Mul(0x0b, Mul(2, c.b1)), Mul(0x0b, Mul(3, c.b2)), Mul(0x0b, c.b3)),
                  Column(Mul(0x0d, c.b0), Mul(0x0d, c.b1), Mul(0x0d, Mul(2, c.b2)), Mul(0x0d, Mul(3, c.b3))),
                  Column(Mul(0x09, Mul(3, c.b0)), Mul(0x09, c.b1), Mul(0x09, c.b2), Mul(0x09, Mul(2, c.b3))));
    Products(c.b0);
    Products(c.b1);
    Products(c.b2);
    Products(c.b3);
    SumWithZeros(c.b0);
  }

  lemma SumWithZeros(x: bv8)
    ensures Sum(x, 0, 0, 0) == x
  {}

  /** InvMixColumn undoes MixColumn. */
  lemma MixColumnInverts(c: Column)
    ensures InvMixColumn(MixColumn(c)) == c
  {
    hide MixColumn, InvMixColumn;
    var c1 := Rotate(c);
    var c2 := Rotate(c1);
    var c3 := Rotate(c2);
    FirstByteRestored(c);
    FirstByteRestored(c1);
    FirstByteRestored(c2);
    FirstByteRestored(c3);
    MixersRotate(c);
    MixersRotate(c1);
    MixersRotate(c2);
    MixersRotate(MixColumn(c));
    MixersRotate(MixColumn(c1));
    MixersRotate(MixColumn(c2));
  }
}
