/** The three field constants the curve code tabulates by limbs. */
module CurveConstants {
  import opened Words
  import opened ModArith
  import opened Limbs
  import opened Field
  import opened Fe25519
  import opened Edwards

  const SQRT_M1: int := 0x2b832480_4fc1df0b_2b4d0099_3dfbd7a7_2f431806_ad2fe478_c4ee1b27_4a0ea0b0

  lemma SqrtM1Squares()
    ensures Eq(SQRT_M1 * SQRT_M1, -1)
  {
    CongByMultiple(SQRT_M1 * SQRT_M1, -1, 0x0ecaa2e2_f6a2302c_cedb31ac_05720688_238ced20_78f3eb0e_c9f22e8f_621972e5, P);
  }

  /** The limbs of the curve constant. */
  function DLimb(i: int): (r: u32)
    ensures r <= 255
  {
    match i
    case 0 => 0xA3 case 1 => 0x78 case 2 => 0x59 case 3 => 0x13
    case 4 => 0xCA case 5 => 0x4D case 6 => 0xEB case 7 => 0x75
    case 8 => 0xAB case 9 => 0xD8 case 10 => 0x41 case 11 => 0x41
    case 12 => 0x4D case 13 => 0x0A case 14 => 0x70 case 15 => 0x00
    case 16 => 0x98 case 17 => 0xE8 case 18 => 0x79 case 19 => 0x77
    case 20 => 0x79 case 21 => 0x40 case 22 => 0xC7 case 23 => 0x8C
    case 24 => 0x73 case 25 => 0xFE case 26 => 0x6F case 27 => 0x2B
    case 28 => 0xEE case 29 => 0x6C case 30 => 0x03 case _ => 0x52
  }

  function Ecd(): (r: seq<u32>)
    ensures |r| == 32
  {
    seq(32, i => DLimb(i))
  }

  lemma DQuads()
    ensures Quad(Ecd(), 0) == 0x75eb4dca_135978a3 && Quad(Ecd(), 8) == 0x00700a4d_4141d8ab
    ensures Quad(Ecd(), 16) == 0x8cc74079_7779e898 && Quad(Ecd(), 24) == 0x52036cee_2b6ffe73
  {
  }

  lemma DValue()
    ensures Loose(Ecd()) && Val(Ecd()) == D
  {
    DBytes();
    DQuads();
    hide Ecd, Quad, Val;
    ValQuads(Ecd());
  }

  lemma DBytes()
    ensures Loose(Ecd())
  {
    assert DLimb(31) == 0x52;
    hide DLimb;
  }

  /** The limbs of its double. */
  function TwoDLimb(i: int): (r: u32)
    ensures r <= 255
  {
    match i
    case 0 => 0x59 case 1 => 0xF1 case 2 => 0xB2 case 3 => 0x26
    case 4 => 0x94 case 5 => 0x9B case 6 => 0xD6 case 7 => 0xEB
    case 8 => 0x56 case 9 => 0xB1 case 10 => 0x83 case 11 => 0x82
    case 12 => 0x9A case 13 => 0x14 case 14 => 0xE0 case 15 => 0x00
    case 16 => 0x30 case 17 => 0xD1 case 18 => 0xF3 case 19 => 0xEE
    case 20 => 0xF2 case 21 => 0x80 case 22 => 0x8E case 23 => 0x19
    case 24 => 0xE7 case 25 => 0xFC case 26 => 0xDF case 27 => 0x56
    case 28 => 0xDC case 29 => 0xD9 case 30 => 0x06 case _ => 0x24
  }

  function Ec2d(): (r: seq<u32>)
    ensures |r| == 32
  {
    seq(32, i => TwoDLimb(i))
  }

  lemma TwoDQuads()
    ensures Quad(Ec2d(), 0) == 0xebd69b94_26b2f159 && Quad(Ec2d(), 8) == 0x00e0149a_8283b156
    ensures Quad(Ec2d(), 16) == 0x198e80f2_eef3d130 && Quad(Ec2d(), 24) == 0x2406d9dc_56dffce7
  {
  }

  lemma TwoDValue()
    ensures Loose(Ec2d()) && Val(Ec2d()) == TWO_D
  {
    TwoDBytes();
    TwoDQuads();
    hide Ec2d, Quad, Val;
    ValQuads(Ec2d());
  }

  lemma TwoDBytes()
    ensures Loose(Ec2d())
  {
    assert TwoDLimb(31) == 0x24;
    hide TwoDLimb;
  }

  /** The limbs of a square root of -1. */
  function SqrtM1Limb(i: int): (r: u32)
    ensures r <= 255
  {
    match i
    case 0 => 0xB0 case 1 => 0xA0 case 2 => 0x0E case 3 => 0x4A
    case 4 => 0x27 case 5 => 0x1B case 6 => 0xEE case 7 => 0xC4
    case 8 => 0x78 case 9 => 0xE4 case 10 => 0x2F case 11 => 0xAD
    case 12 => 0x06 case 13 => 0x18 case 14 => 0x43 case 15 => 0x2F
    case 16 => 0xA7 case 17 => 0xD7 case 18 => 0xFB case 19 => 0x3D
    case 20 => 0x99 case 21 => 0x00 case 22 => 0x4D case 23 => 0x2B
    case 24 => 0x0B case 25 => 0xDF case 26 => 0xC1 case 27 => 0x4F
    case 28 => 0x80 case 29 => 0x24 case 30 => 0x83 case _ => 0x2B
  }

  function SqrtM1(): (r: seq<u32>)
    ensures |r| == 32
  {
    seq(32, i => SqrtM1Limb(i))
  }

  lemma SqrtM1Quads()
    ensures Quad(SqrtM1(), 0) == 0xc4ee1b27_4a0ea0b0 && Quad(SqrtM1(), 8) == 0x2f431806_ad2fe478
    ensures Quad(SqrtM1(), 16) == 0x2b4d0099_3dfbd7a7 && Quad(SqrtM1(), 24) == 0x2b832480_4fc1df0b
  {
  }

  lemma SqrtM1Value()
    ensures Loose(SqrtM1()) && Val(SqrtM1()) == SQRT_M1
  {
    SqrtM1Bytes();
    SqrtM1Quads();
    hide SqrtM1, Quad, Val;
    ValQuads(SqrtM1());
  }

  lemma SqrtM1Bytes()
    ensures Loose(SqrtM1())
  {
    assert SqrtM1Limb(31) == 0x2B;
    hide SqrtM1Limb;
  }
}
