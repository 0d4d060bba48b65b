/** The two-table CRC-16 of applications/normal_calc.c, against the bit-serial
    CRC of section 6.2.2 of MODBUS over Serial Line V1.02.

    The source keeps the register byte-swapped: its crc_hi holds the low byte
    of the reflected register.  Swap converts between the two views. */
module Crc16 {

  // --- The tables -------------------------------------------------------
  // The 256-entry tables, written row by row: row i >> 4, column i & 0xF.

  function TableCrcHi(i: bv8): bv8 {
    match i >> 4
    case  0 =>
      match i & 0xF {
        case  0 => 0x00 case  1 => 0xC1 case  2 => 0x81 case  3 => 0x40
        case  4 => 0x01 case  5 => 0xC0 case  6 => 0x80 case  7 => 0x41
        case  8 => 0x01 case  9 => 0xC0 case 10 => 0x80 case 11 => 0x41
        case 12 => 0x00 case 13 => 0xC1 case 14 => 0x81 case _ => 0x40
      }
    case  1 =>
      match i & 0xF {
        case  0 => 0x01 case  1 => 0xC0 case  2 => 0x80 case  3 => 0x41
        case  4 => 0x00 case  5 => 0xC1 case  6 => 0x81 case  7 => 0x40
        case  8 => 0x00 case  9 => 0xC1 case 10 => 0x81 case 11 => 0x40
        case 12 => 0x01 case 13 => 0xC0 case 14 => 0x80 case _ => 0x41
      }
    case  2 =>
      match i & 0xF {
        case  0 => 0x01 case  1 => 0xC0 case  2 => 0x80 case  3 => 0x41
        case  4 => 0x00 case  5 => 0xC1 case  6 => 0x81 case  7 => 0x40
        case  8 => 0x00 case  9 => 0xC1 case 10 => 0x81 case 11 => 0x40
        case 12 => 0x01 case 13 => 0xC0 case 14 => 0x80 case _ => 0x41
      }
    case  3 =>
      match i & 0xF {
        case  0 => 0x00 case  1 => 0xC1 case  2 => 0x81 case  3 => 0x40
        case  4 => 0x01 case  5 => 0xC0 case  6 => 0x80 case  7 => 0x41
        case  8 => 0x01 case  9 => 0xC0 case 10 => 0x80 case 11 => 0x41
        case 12 => 0x00 case 13 => 0xC1 case 14 => 0x81 case _ => 0x40
      }
    case  4 =>
      match i & 0xF {
        case  0 => 0x01 case  1 => 0xC0 case  2 => 0x80 case  3 => 0x41
        case  4 => 0x00 case  5 => 0xC1 case  6 => 0x81 case  7 => 0x40
        case  8 => 0x00 case  9 => 0xC1 case 10 => 0x81 case 11 => 0x40
        case 12 => 0x01 case 13 => 0xC0 case 14 => 0x80 case _ => 0x41
      }
    case  5 =>
      match i & 0xF {
        case  0 => 0x00 case  1 => 0xC1 case  2 => 0x81 case  3 => 0x40
        case  4 => 0x01 case  5 => 0xC0 case  6 => 0x80 case  7 => 0x41
        case  8 => 0x01 case  9 => 0xC0 case 10 => 0x80 case 11 => 0x41
        case 12 => 0x00 case 13 => 0xC1 case 14 => 0x81 case _ => 0x40
      }
    case  6 =>
      match i & 0xF {
        case  0 => 0x00 case  1 => 0xC1 case  2 => 0x81 case  3 => 0x40
        case  4 => 0x01 case  5 => 0xC0 case  6 => 0x80 case  7 => 0x41
        case  8 => 0x01 case  9 => 0xC0 case 10 => 0x80 case 11 => 0x41
        case 12 => 0x00 case 13 => 0xC1 case 14 => 0x81 case _ => 0x40
      }
    case  7 =>
      match i & 0xF {
        case  0 => 0x01 case  1 => 0xC0 case  2 => 0x80 case  3 => 0x41
        case  4 => 0x00 case  5 => 0xC1 case  6 => 0x81 case  7 => 0x40
        case  8 => 0x00 case  9 => 0xC1 case 10 => 0x81 case 11 => 0x40
        case 12 => 0x01 case 13 => 0xC0 case 14 => 0x80 case _ => 0x41
      }
    case  8 =>
      match i & 0xF {
        case  0 => 0x01 case  1 => 0xC0 case  2 => 0x80 case  3 => 0x41
        case  4 => 0x00 case  5 => 0xC1 case  6 => 0x81 case  7 => 0x40
        case  8 => 0x00 case  9 => 0xC1 case 10 => 0x81 case 11 => 0x40
        case 12 => 0x01 case 13 => 0xC0 case 14 => 0x80 case _ => 0x41
      }
    case  9 =>
      match i & 0xF {
        case  0 => 0x00 case  1 => 0xC1 case  2 => 0x81 case  3 => 0x40
        case  4 => 0x01 case  5 => 0xC0 case  6 => 0x80 case  7 => 0x41
        case  8 => 0x01 case  9 => 0xC0 case 10 => 0x80 case 11 => 0x41
        case 12 => 0x00 case 13 => 0xC1 case 14 => 0x81 case _ => 0x40
      }
    case 10 =>
      match i & 0xF {
        case  0 => 0x00 case  1 => 0xC1 case  2 => 0x81 case  3 => 0x40
        case  4 => 0x01 case  5 => 0xC0 case  6 => 0x80 case  7 => 0x41
        case  8 => 0x01 case  9 => 0xC0 case 10 => 0x80 case 11 => 0x41
        case 12 => 0x00 case 13 => 0xC1 case 14 => 0x81 case _ => 0x40
      }
    case 11 =>
      match i & 0xF {
        case  0 => 0x01 case  1 => 0xC0 case  2 => 0x80 case  3 => 0x41
        case  4 => 0x00 case  5 => 0xC1 case  6 => 0x81 case  7 => 0x40
        case  8 => 0x00 case  9 => 0xC1 case 10 => 0x81 case 11 => 0x40
        case 12 => 0x01 case 13 => 0xC0 case 14 => 0x80 case _ => 0x41
      }
    case 12 =>
      match i & 0xF {
        case  0 => 0x00 case  1 => 0xC1 case  2 => 0x81 case  3 => 0x40
        case  4 => 0x01 case  5 => 0xC0 case  6 => 0x80 case  7 => 0x41
        case  8 => 0x01 case  9 => 0xC0 case 10 => 0x80 case 11 => 0x41
        case 12 => 0x00 case 13 => 0xC1 case 14 => 0x81 case _ => 0x40
      }
    case 13 =>
      match i & 0xF {
        case  0 => 0x01 case  1 => 0xC0 case  2 => 0x80 case  3 => 0x41
        case  4 => 0x00 case  5 => 0xC1 case  6 => 0x81 case  7 => 0x40
        case  8 => 0x00 case  9 => 0xC1 case 10 => 0x81 case 11 => 0x40
        case 12 => 0x01 case 13 => 0xC0 case 14 => 0x80 case _ => 0x41
      }
    case 14 =>
      match i & 0xF {
        case  0 => 0x01 case  1 => 0xC0 case  2 => 0x80 case  3 => 0x41
        case  4 => 0x00 case  5 => 0xC1 case  6 => 0x81 case  7 => 0x40
        case  8 => 0x00 case  9 => 0xC1 case 10 => 0x81 case 11 => 0x40
        case 12 => 0x01 case 13 => 0xC0 case 14 => 0x80 case _ => 0x41
      }
    case _ =>
      match i & 0xF {
        case  0 => 0x00 case  1 => 0xC1 case  2 => 0x81 case  3 => 0x40
        case  4 => 0x01 case  5 => 0xC0 case  6 => 0x80 case  7 => 0x41
        case  8 => 0x01 case  9 => 0xC0 case 10 => 0x80 case 11 => 0x41
        case 12 => 0x00 case 13 => 0xC1 case 14 => 0x81 case _ => 0x40
      }
  }

  function TableCrcLo(i: bv8): bv8 {
    match i >> 4
    case  0 =>
      match i & 0xF {
        case  0 => 0x00 case  1 => 0xC0 case  2 => 0xC1 case  3 => 0x01
        case  4 => 0xC3 case  5 => 0x03 case  6 => 0x02 case  7 => 0xC2
        case  8 => 0xC6 case  9 => 0x06 case 10 => 0x07 case 11 => 0xC7
        case 12 => 0x05 case 13 => 0xC5 case 14 => 0xC4 case _ => 0x04
      }
    case  1 =>
      match i & 0xF {
        case  0 => 0xCC case  1 => 0x0C case  2 => 0x0D case  3 => 0xCD
        case  4 => 0x0F case  5 => 0xCF case  6 => 0xCE case  7 => 0x0E
        case  8 => 0x0A case  9 => 0xCA case 10 => 0xCB case 11 => 0x0B
        case 12 => 0xC9 case 13 => 0x09 case 14 => 0x08 case _ => 0xC8
      }
    case  2 =>
      match i & 0xF {
        case  0 => 0xD8 case  1 => 0x18 case  2 => 0x19 case  3 => 0xD9
        case  4 => 0x1B case  5 => 0xDB case  6 => 0xDA case  7 => 0x1A
        case  8 => 0x1E case  9 => 0xDE case 10 => 0xDF case 11 => 0x1F
        case 12 => 0xDD case 13 => 0x1D case 14 => 0x1C case _ => 0xDC
      }
    case  3 =>
      match i & 0xF {
        case  0 => 0x14 case  1 => 0xD4 case  2 => 0xD5 case  3 => 0x15
        case  4 => 0xD7 case  5 => 0x17 case  6 => 0x16 case  7 => 0xD6
        case  8 => 0xD2 case  9 => 0x12 case 10 => 0x13 case 11 => 0xD3
        case 12 => 0x11 case 13 => 0xD1 case 14 => 0xD0 case _ => 0x10
      }
    case  4 =>
      match i & 0xF {
        case  0 => 0xF0 case  1 => 0x30 case  2 => 0x31 case  3 => 0xF1
        case  4 => 0x33 case  5 => 0xF3 case  6 => 0xF2 case  7 => 0x32
        case  8 => 0x36 case  9 => 0xF6 case 10 => 0xF7 case 11 => 0x37
        case 12 => 0xF5 case 13 => 0x35 case 14 => 0x34 case _ => 0xF4
      }
    case  5 =>
      match i & 0xF {
        case  0 => 0x3C case  1 => 0xFC case  2 => 0xFD case  3 => 0x3D
        case  4 => 0xFF case  5 => 0x3F case  6 => 0x3E case  7 => 0xFE
        case  8 => 0xFA case  9 => 0x3A case 10 => 0x3B case 11 => 0xFB
        case 12 => 0x39 case 13 => 0xF9 case 14 => 0xF8 case _ => 0x38
      }
    case  6 =>
      match i & 0xF {
        case  0 => 0x28 case  1 => 0xE8 case  2 => 0xE9 case  3 => 0x29
        case  4 => 0xEB case  5 => 0x2B case  6 => 0x2A case  7 => 0xEA
        case  8 => 0xEE case  9 => 0x2E case 10 => 0x2F case 11 => 0xEF
        case 12 => 0x2D case 13 => 0xED case 14 => 0xEC case _ => 0x2C
      }
    case  7 =>
      match i & 0xF {
        case  0 => 0xE4 case  1 => 0x24 case  2 => 0x25 case  3 => 0xE5
        case  4 => 0x27 case  5 => 0xE7 case  6 => 0xE6 case  7 => 0x26
        case  8 => 0x22 case  9 => 0xE2 case 10 => 0xE3 case 11 => 0x23
        case 12 => 0xE1 case 13 => 0x21 case 14 => 0x20 case _ => 0xE0
      }
    case  8 =>
      match i & 0xF {
        case  0 => 0xA0 case  1 => 0x60 case  2 => 0x61 case  3 => 0xA1
        case  4 => 0x63 case  5 => 0xA3 case  6 => 0xA2 case  7 => 0x62
        case  8 => 0x66 case  9 => 0xA6 case 10 => 0xA7 case 11 => 0x67
        case 12 => 0xA5 case 13 => 0x65 case 14 => 0x64 case _ => 0xA4
      }
    case  9 =>
      match i & 0xF {
        case  0 => 0x6C case  1 => 0xAC case  2 => 0xAD case  3 => 0x6D
        case  4 => 0xAF case  5 => 0x6F case  6 => 0x6E case  7 => 0xAE
        case  8 => 0xAA case  9 => 0x6A case 10 => 0x6B case 11 => 0xAB
        case 12 => 0x69 case 13 => 0xA9 case 14 => 0xA8 case _ => 0x68
      }
    case 10 =>
      match i & 0xF {
        case  0 => 0x78 case  1 => 0xB8 case  2 => 0xB9 case  3 => 0x79
        case  4 => 0xBB case  5 => 0x7B case  6 => 0x7A case  7 => 0xBA
        case  8 => 0xBE case  9 => 0x7E case 10 => 0x7F case 11 => 0xBF
        case 12 => 0x7D case 13 => 0xBD case 14 => 0xBC case _ => 0x7C
      }
    case 11 =>
      match i & 0xF {
        case  0 => 0xB4 case  1 => 0x74 case  2 => 0x75 case  3 => 0xB5
        case  4 => 0x77 case  5 => 0xB7 case  6 => 0xB6 case  7 => 0x76
        case  8 => 0x72 case  9 => 0xB2 case 10 => 0xB3 case 11 => 0x73
        case 12 => 0xB1 case 13 => 0x71 case 14 => 0x70 case _ => 0xB0
      }
    case 12 =>
      match i & 0xF {
        case  0 => 0x50 case  1 => 0x90 case  2 => 0x91 case  3 => 0x51
        case  4 => 0x93 case  5 => 0x53 case  6 => 0x52 case  7 => 0x92
        case  8 => 0x96 case  9 => 0x56 case 10 => 0x57 case 11 => 0x97
        case 12 => 0x55 case 13 => 0x95 case 14 => 0x94 case _ => 0x54
      }
    case 13 =>
      match i & 0xF {
        case  0 => 0x9C case  1 => 0x5C case  2 => 0x5D case  3 => 0x9D
        case  4 => 0x5F case  5 => 0x9F case  6 => 0x9E case  7 => 0x5E
        case  8 => 0x5A case  9 => 0x9A case 10 => 0x9B case 11 => 0x5B
        case 12 => 0x99 case 13 => 0x59 case 14 => 0x58 case _ => 0x98
      }
    case 14 =>
      match i & 0xF {
        case  0 => 0x88 case  1 => 0x48 case  2 => 0x49 case  3 => 0x89
        case  4 => 0x4B case  5 => 0x8B case  6 => 0x8A case  7 => 0x4A
        case  8 => 0x4E case  9 => 0x8E case 10 => 0x8F case 11 => 0x4F
        case 12 => 0x8D case 13 => 0x4D case 14 => 0x4C case _ => 0x8C
      }
    case _ =>
      match i & 0xF {
        case  0 => 0x44 case  1 => 0x84 case  2 => 0x85 case  3 => 0x45
        case  4 => 0x87 case  5 => 0x47 case  6 => 0x46 case  7 => 0x86
        case  8 => 0x82 case  9 => 0x42 case 10 => 0x43 case 11 => 0x83
        case 12 => 0x41 case 13 => 0x81 case 14 => 0x80 case _ => 0x40
      }
  }

  // --- Reference definition: one bit at a time ---------------------------

  function Xor(s: bv16, t: bv16): bv16 { s ^ t }

  function Half(s: bv16): bv16 { s >> 1 }

  predicate Odd(s: bv16) { s & 1 == 1 }

  /** One shift of the reflected register with polynomial 0xA001. */
  function BitStep(s: bv16): bv16 {
    if Odd(s) then Xor(Half(s), 0xA001) else Half(s)
  }

  function Steps(s: bv16, n: nat): bv16
    decreases n
  {
    if n == 0 then s else Steps(BitStep(s), n - 1)
  }

  function Word(b: bv8): bv16 { b as bv16 }

  function ByteStep(s: bv16, b: bv8): bv16 {
    Steps(Xor(s, Word(b)), 8)
  }

  function BitSerial(s: bv16, data: seq<bv8>): bv16
    decreases |data|
  {
    if data == [] then s else BitSerial(ByteStep(s, data[0]), data[1..])
  }

  function Join(hi: bv8, lo: bv8): bv16 { ((hi as bv16) << 8) | (lo as bv16) }

  function Hi(x: bv16): bv8 { (x >> 8) as bv8 }

  function Lo(x: bv16): bv8 { (x & 0xFF) as bv8 }

  function Swap(x: bv16): bv16 { Join(Lo(x), Hi(x)) }

  /** What the source's functions compute, said without any table. */
  function Crc(init: bv16, data: seq<bv8>): bv16 {
    Swap(BitSerial(Swap(init), data))
  }

  // --- Algebra of the register --------------------------------------------

  lemma XorRight(a: bv16, b: bv16, c: bv16)
    ensures Xor(a, Xor(b, c)) == Xor(Xor(a, b), c)
  {
  }

  lemma XorLeft(a: bv16, b: bv16, c: bv16)
    ensures Xor(Xor(a, c), b) == Xor(Xor(a, b), c)
  {
  }

  lemma XorTwice(a: bv16, c: bv16)
    ensures Xor(Xor(a, c), c) == a
  {
  }

  lemma XorBoth(a: bv16, b: bv16, c: bv16)
    ensures Xor(Xor(a, c), Xor(b, c)) == Xor(a, b)
  {
    hide Xor;
    XorRight(Xor(a, c), b, c);
    XorLeft(a, b, c);
    XorTwice(Xor(a, b), c);
  }

  lemma HalfXor(s: bv16, t: bv16)
    ensures Half(Xor(s, t)) == Xor(Half(s), Half(t))
  {
  }

  lemma OddXor(s: bv16, t: bv16)
    ensures Odd(Xor(s, t)) <==> Odd(s) != Odd(t)
  {
    assert (s ^ t) & 1 == (s & 1) ^ (t & 1);
    OneBit(s); OneBit(t);
  }

  lemma OneBit(s: bv16)
    ensures s & 1 == 0 || s & 1 == 1
  {
  }

  lemma XorCancel(a: bv16, b: bv16, c: bv16)
    requires Xor(a, c) == Xor(b, c)
    ensures a == b
  {
    hide Xor;
    XorTwice(a, c);
    XorTwice(b, c);
  }

  lemma BitStepXor(s: bv16, t: bv16)
    ensures BitStep(Xor(s, t)) == Xor(BitStep(s), BitStep(t))
  {
    hide Xor, Half, Odd;
    HalfXor(s, t);
    OddXor(s, t);
    XorBoth(Half(s), Half(t), 0xA001);
    XorRight(Half(s), Half(t), 0xA001);
    XorLeft(Half(s), Half(t), 0xA001);
  }

  lemma {:induction false} StepsXor(s: bv16, t: bv16, n: nat)
    ensures Steps(Xor(s, t), n) == Xor(Steps(s, n), Steps(t, n))
    decreases n
  {
    hide BitStep, Xor;
    if n > 0 {
      BitStepXor(s, t);
      StepsXor(BitStep(s), BitStep(t), n - 1);
    }
  }

  lemma BitStepInjective(s: bv16, t: bv16)
    requires BitStep(s) == BitStep(t)
    ensures s == t
  {
    TopBit(Half(s)); TopBit(Half(t));
    XorTop(Half(s)); XorTop(Half(t));
    HalfSmall(s); HalfSmall(t);
    assert Odd(s) == Odd(t);
    assert Half(s) == Half(t) by {
      hide Half, Odd;
      if Odd(s) { XorCancel(Half(s), Half(t), 0xA001); }
    }
    HalfOddDetermine(s, t);
  }

  predicate Top(s: bv16) { s & 0x8000 == 0x8000 }

  lemma TopBit(s: bv16)
    ensures s & 0x8000 == 0 || s & 0x8000 == 0x8000
  {
  }

  lemma HalfSmall(s: bv16)
    ensures !Top(Half(s))
  {
  }

  lemma XorTop(s: bv16)
    requires s & 0x8000 == 0 || s & 0x8000 == 0x8000
    ensures Top(Xor(s, 0xA001)) <==> !Top(s)
  {
    assert (s ^ 0xA001) & 0x8000 == (s & 0x8000) ^ 0x8000;
  }

  lemma HalfOddDetermine(s: bv16, t: bv16)
    requires Half(s) == Half(t) && Odd(s) == Odd(t)
    ensures s == t
  {
    OneBit(s); OneBit(t);
    assert s == ((s >> 1) << 1) | (s & 1);
    assert t == ((t >> 1) << 1) | (t & 1);
  }

  lemma {:induction false} StepsInjective(s: bv16, t: bv16, n: nat)
    requires Steps(s, n) == Steps(t, n)
    ensures s == t
    decreases n
  {
    hide BitStep;
    if n > 0 {
      StepsInjective(BitStep(s), BitStep(t), n - 1);
      BitStepInjective(s, t);
    }
  }

  lemma {:induction false} BitSerialInjective(s: bv16, t: bv16, data: seq<bv8>)
    requires BitSerial(s, data) == BitSerial(t, data)
    ensures s == t
    decreases |data|
  {
    hide Xor, Steps, Word;
    if data != [] {
      BitSerialInjective(ByteStep(s, data[0]), ByteStep(t, data[0]), data[1..]);
      StepsInjective(Xor(s, Word(data[0])), Xor(t, Word(data[0])), 8);
      XorCancel(s, t, Word(data[0]));
    }
  }

  // --- The table code ----------------------------------------------------

  function EightSteps(s: bv16): bv16 {
    BitStep(BitStep(BitStep(BitStep(BitStep(BitStep(BitStep(BitStep(s))))))))
  }

  lemma EightStepsIsSteps(s: bv16)
    ensures EightSteps(s) == Steps(s, 8)
  {
    hide BitStep;
  }

  predicate EntryOk(i: bv8) {
    Join(TableCrcLo(i), TableCrcHi(i)) == EightSteps(Word(i))
  }

  lemma TableQuarter0(i: bv8)
    requires i < 0x40
    ensures EntryOk(i)
  {
  }

  lemma TableQuarter1(i: bv8)
    requires 0x40 <= i < 0x80
    ensures EntryOk(i)
  {
  }

  lemma TableQuarter2(i: bv8)
    requires 0x80 <= i < 0xC0
    ensures EntryOk(i)
  {
  }

  lemma TableQuarter3(i: bv8)
    requires 0xC0 <= i
    ensures EntryOk(i)
  {
  }

  /** All 512 table entries hold the eight-step image of their index. */
  lemma TableEntry(i: bv8)
    ensures Join(TableCrcLo(i), TableCrcHi(i)) == Steps(Word(i), 8)
  {
    hide Join, TableCrcLo, TableCrcHi, Word, Steps, EightSteps;
    EightStepsIsSteps(Word(i));
    if i < 0x40 { TableQuarter0(i); } else if i < 0x80 { TableQuarter1(i); }
    else if i < 0xC0 { TableQuarter2(i); } else { TableQuarter3(i); }
    assert EntryOk(i);
  }

  lemma HighByteShifts(h: bv8)
    ensures Steps(Join(h, 0), 8) == Word(h)
  {
  }

  lemma JoinXor(hi: bv8, lo: bv8, b: bv8)
    ensures Xor(Join(hi, lo), Word(b)) == Xor(Join(hi, 0), Word(lo ^ b))
  {
  }

  lemma WordXorJoin(a: bv8, hi: bv8, lo: bv8)
    ensures Xor(Word(a), Join(hi, lo)) == Join(hi, a ^ lo)
  {
  }

  /** One table step is one byte of the bit-serial CRC, seen byte-swapped. */
  lemma TableStepIsByteStep(crcHi: bv8, crcLo: bv8, b: bv8)
    ensures var i := crcHi ^ b;
            ByteStep(Join(crcLo, crcHi), b) == Join(TableCrcLo(i), crcLo ^ TableCrcHi(i))
  {
    hide Xor, Steps, Word, Join, TableCrcLo, TableCrcHi;
    var i := crcHi ^ b;
    JoinXor(crcLo, crcHi, b);
    StepsXor(Join(crcLo, 0), Word(i), 8);
    HighByteShifts(crcLo);
    TableEntry(i);
    WordXorJoin(crcLo, TableCrcLo(i), TableCrcHi(i));
  }

  lemma SwapJoin(hi: bv8, lo: bv8)
    ensures Swap(Join(hi, lo)) == Join(lo, hi)
    ensures Hi(Join(hi, lo)) == hi && Lo(Join(hi, lo)) == lo
  {
  }

  lemma SwapSwap(x: bv16)
    ensures Swap(Swap(x)) == x
    ensures Swap(x) == Join(Lo(x), Hi(x))
    ensures Join(Hi(x), Lo(x)) == x
  {
  }

  /** modbus_rtu_crc16_frame: the table loop computes the bit-serial CRC. */
  method ModbusRtuCrc16Frame(buffer: seq<bv8>, bufferLength: nat, initCrc: bv16) returns (crc: bv16)
    requires bufferLength <= |buffer| && bufferLength < 0x10000
    ensures crc == Crc(initCrc, buffer[..bufferLength])
  {
    hide Join, ByteStep, TableCrcLo, TableCrcHi, Hi, Lo, Swap;
    var crcHi, crcLo := Hi(initCrc), Lo(initCrc);
    var n := 0;
    SwapSwap(initCrc);
    while n < bufferLength
      invariant 0 <= n <= bufferLength
      invariant BitSerial(Join(crcLo, crcHi), buffer[n..bufferLength])
             == BitSerial(Swap(initCrc), buffer[..bufferLength])
    {
      assert buffer[n..bufferLength][1..] == buffer[n + 1..bufferLength];
      TableStepIsByteStep(crcHi, crcLo, buffer[n]);
      var i := crcHi ^ buffer[n];
      crcHi := crcLo ^ TableCrcHi(i);
      crcLo := TableCrcLo(i);
      n := n + 1;
    }
    SwapJoin(crcLo, crcHi);
    crc := Join(crcHi, crcLo);
  }

  /** modbus_rtu_crc16: the same loop from the fixed start value 0xFFFF. */
  method ModbusRtuCrc16(buffer: seq<bv8>, bufferLength: nat) returns (crc: bv16)
    requires bufferLength <= |buffer| && bufferLength < 0x10000
    ensures crc == Crc(0xFFFF, buffer[..bufferLength])
  {
    hide ByteStep, TableCrcLo, TableCrcHi;
    var crcHi: bv8, crcLo: bv8 := 0xFF, 0xFF;
    var n := 0;
    while n < bufferLength
      invariant 0 <= n <= bufferLength
      invariant BitSerial(Join(crcLo, crcHi), buffer[n..bufferLength])
             == BitSerial(Swap(0xFFFF), buffer[..bufferLength])
    {
      assert buffer[n..bufferLength][1..] == buffer[n + 1..bufferLength];
      TableStepIsByteStep(crcHi, crcLo, buffer[n]);
      var i := crcHi ^ buffer[n];
      crcHi := crcLo ^ TableCrcHi(i);
      crcLo := TableCrcLo(i);
      n := n + 1;
    }
    SwapJoin(crcLo, crcHi);
    crc := Join(crcHi, crcLo);
  }

  // --- Chunking and residue ----------------------------------------------

  lemma {:induction false} BitSerialConcat(s: bv16, a: seq<bv8>, b: seq<bv8>)
    ensures BitSerial(s, a + b) == BitSerial(BitSerial(s, a), b)
    decreases |a|
  {
    hide ByteStep;
    if a == [] {
      assert a + b == b;
    } else {
      assert (a + b)[1..] == a[1..] + b;
      BitSerialConcat(ByteStep(s, a[0]), a[1..], b);
    }
  }

  /** Feeding a message in chunks equals feeding it whole. */
  lemma CrcConcat(init: bv16, a: seq<bv8>, b: seq<bv8>)
    ensures Crc(init, a + b) == Crc(Crc(init, a), b)
  {
    hide Swap;
    BitSerialConcat(Swap(init), a, b);
    SwapSwap(BitSerial(Swap(init), a));
  }

  lemma OwnLowByte(t: bv16)
    ensures Xor(t, Word(Lo(t))) == Join(Hi(t), 0)
    ensures Xor(Word(Hi(t)), Word(Hi(t))) == 0
    ensures Steps(0, 8) == 0
  {
  }

  lemma OwnBytesClear(t: bv16)
    ensures BitSerial(t, [Lo(t), Hi(t)]) == 0
  {
    hide Xor, Word, Steps, Join, Hi, Lo;
    OwnLowByte(t);
    HighByteShifts(Hi(t));
    TwoBytes(t, Lo(t), Hi(t));
  }

  lemma TwoBytes(s: bv16, a: bv8, b: bv8)
    ensures BitSerial(s, [a, b]) == ByteStep(ByteStep(s, a), b)
  {
    hide ByteStep;
    assert [a, b][1..] == [b] && [b][1..] == [];
    assert BitSerial(ByteStep(s, a), [b]) == BitSerial(ByteStep(ByteStep(s, a), b), []);
  }

  lemma SwappedBytes(t: bv16)
    ensures Hi(Swap(t)) == Lo(t) && Lo(Swap(t)) == Hi(t)
    ensures Swap(0) == 0
  {
    SwapJoin(Lo(t), Hi(t));
  }

  /** A message followed by its own CRC, high byte first, has CRC 0. */
  lemma CrcResidue(init: bv16, data: seq<bv8>)
    ensures var c := Crc(init, data); Crc(init, data + [Hi(c), Lo(c)]) == 0
  {
    hide Swap, ByteStep, Hi, Lo, BitSerial;
    var t := BitSerial(Swap(init), data);
    SwappedBytes(t);
    BitSerialConcat(Swap(init), data, [Lo(t), Hi(t)]);
    OwnBytesClear(t);
  }

  // --- The same register, bit by bit ---------------------------------------

  /** The n low bits of x in wire order, least significant first. */
  function LowBits(x: bv16, n: nat): (u: seq<bool>)
    ensures |u| == n
    decreases n
  {
    if n == 0 then [] else [Odd(x)] + LowBits(Half(x), n - 1)
  }

  function Bits8(b: bv8): (u: seq<bool>)
    ensures |u| == 8
  {
    LowBits(Word(b), 8)
  }

  function Bits(data: seq<bv8>): (u: seq<bool>)
    ensures |u| == 8 * |data|
    decreases |data|
  {
    if data == [] then [] else Bits8(data[0]) + Bits(data[1..])
  }

  function In(bit: bool): bv16 { if bit then 1 else 0 }

  /** The register after feeding the bits u, one shift each. */
  function Feed(s: bv16, u: seq<bool>): bv16
    decreases |u|
  {
    if u == [] then s else Feed(BitStep(Xor(s, In(u[0]))), u[1..])
  }

  lemma {:induction false} FeedConcat(s: bv16, u: seq<bool>, v: seq<bool>)
    ensures Feed(s, u + v) == Feed(Feed(s, u), v)
    decreases |u|
  {
    hide BitStep, Xor;
    if u == [] {
      assert u + v == v;
    } else {
      assert (u + v)[1..] == u[1..] + v;
      FeedConcat(BitStep(Xor(s, In(u[0]))), u[1..], v);
    }
  }

  lemma {:induction false} FeedInjective(s: bv16, t: bv16, u: seq<bool>)
    requires Feed(s, u) == Feed(t, u)
    ensures s == t
    decreases |u|
  {
    hide BitStep, Xor, In;
    if u != [] {
      var x := In(u[0]);
      FeedInjective(BitStep(Xor(s, x)), BitStep(Xor(t, x)), u[1..]);
      BitStepInjective(Xor(s, x), Xor(t, x));
      XorCancel(s, t, x);
    }
  }

  function Double(s: bv16): bv16 { s << 1 }

  /** Up to 16 bits as a register value, first bit lowest. */
  function Pack(u: seq<bool>): bv16
    decreases |u|
  {
    if u == [] then 0 else Xor(In(u[0]), Double(Pack(u[1..])))
  }

  /** x is less than 2 to the n. */
  predicate Below(x: bv16, n: nat)
    decreases n
  {
    if n == 0 then x == 0 else Below(Half(x), n - 1)
  }

  lemma HalfZero()
    ensures Half(0) == 0
  {
  }

  lemma {:induction false} BelowMonotone(x: bv16, m: nat, n: nat)
    requires m <= n && Below(x, m)
    ensures Below(x, n)
    decreases n
  {
    hide Half;
    HalfZero();
    if n > 0 { BelowMonotone(Half(x), if m == 0 then 0 else m - 1, n - 1); }
  }

  /** The bits from position n upwards. */
  function HighMask(n: nat): bv16
    decreases n
  {
    if n == 0 then 0xFFFF else Double(HighMask(n - 1))
  }

  lemma HalfMask(x: bv16, m: bv16)
    requires Half(x) & m == 0
    ensures x & Double(m) == 0
  {
  }

  lemma {:induction false} BelowMask(x: bv16, n: nat)
    requires Below(x, n)
    ensures x & HighMask(n) == 0
    decreases n
  {
    hide Half, Double;
    if n > 0 {
      BelowMask(Half(x), n - 1);
      HalfMask(x, HighMask(n - 1));
    }
  }

  lemma Below15HasNoTop(x: bv16)
    requires Below(x, 15)
    ensures !Top(x)
  {
    BelowMask(x, 15);
    assert HighMask(2) == 0xFFFC && HighMask(4) == 0xFFF0 && HighMask(6) == 0xFFC0 && HighMask(8) == 0xFF00;
    assert HighMask(10) == 0xFC00 && HighMask(12) == 0xF000 && HighMask(14) == 0xC000 && HighMask(15) == 0x8000;
  }

  lemma HalfDouble(x: bv16)
    requires !Top(x)
    ensures Half(Double(x)) == x && !Odd(Double(x))
  {
  }

  lemma OneHalves()
    ensures Half(1) == 0 && Odd(1) && Half(0) == 0 && !Odd(0)
  {
  }

  lemma PushBit(bit: bool, x: bv16)
    requires !Top(x)
    ensures Half(Xor(In(bit), Double(x))) == x
    ensures Odd(Xor(In(bit), Double(x))) == bit
    ensures BitStep(Double(x)) == x
  {
    hide Half, Odd, Xor, Double, Top;
    HalfDouble(x);
    OneHalves();
    HalfXor(In(bit), Double(x));
    OddXor(In(bit), Double(x));
    XorZero(x);
  }

  lemma {:induction false} PackBelow(u: seq<bool>)
    requires |u| <= 15
    ensures Below(Pack(u), |u|) && !Top(Pack(u))
    decreases |u|
  {
    hide Half, Odd, Xor, Double, In, Top;
    if u == [] {
      HalfZero();
    } else {
      PackBelow(u[1..]);
      PushBit(u[0], Pack(u[1..]));
    }
    BelowMonotone(Pack(u), |u|, 15);
    Below15HasNoTop(Pack(u));
  }

  lemma {:induction false} PackInjective(u: seq<bool>, v: seq<bool>)
    requires |u| == |v| <= 16 && Pack(u) == Pack(v)
    ensures u == v
    decreases |u|
  {
    hide Half, Odd, Xor, Double, In, Top;
    if u != [] {
      PackBelow(u[1..]);
      PackBelow(v[1..]);
      PushBit(u[0], Pack(u[1..]));
      PushBit(v[0], Pack(v[1..]));
      PackInjective(u[1..], v[1..]);
      assert u == [u[0]] + u[1..] && v == [v[0]] + v[1..];
    }
  }

  /** Up to 16 fed bits act as one addition to the register. */
  lemma {:induction false} FeedIsSteps(s: bv16, u: seq<bool>)
    requires |u| <= 16
    ensures Feed(s, u) == Steps(Xor(s, Pack(u)), |u|)
    decreases |u|
  {
    hide BitStep, Xor, Double, In, Top;
    if u == [] {
      XorZero(s);
    } else {
      var x, y := In(u[0]), Double(Pack(u[1..]));
      PackBelow(u[1..]);
      PushBit(u[0], Pack(u[1..]));
      XorRight(s, x, y);
      BitStepXor(Xor(s, x), y);
      FeedIsSteps(BitStep(Xor(s, x)), u[1..]);
    }
  }

  lemma XorZero(s: bv16)
    ensures Xor(s, 0) == s && Xor(0, s) == s
  {
  }

  lemma XorCancelLeft(s: bv16, a: bv16, b: bv16)
    requires Xor(s, a) == Xor(s, b)
    ensures a == b
  {
    assert s ^ (s ^ a) == a;
    assert s ^ (s ^ b) == b;
  }

  lemma WindowInjective(s: bv16, u: seq<bool>, v: seq<bool>)
    requires |u| == |v| <= 16 && Feed(s, u) == Feed(s, v)
    ensures u == v
  {
    hide Xor;
    FeedIsSteps(s, u);
    FeedIsSteps(s, v);
    StepsInjective(Xor(s, Pack(u)), Xor(s, Pack(v)), |u|);
    XorCancelLeft(s, Pack(u), Pack(v));
    PackInjective(u, v);
  }

  lemma Recompose(x: bv16)
    ensures Xor(In(Odd(x)), Double(Half(x))) == x
  {
    hide Xor, In, Odd, Half, Double, Top;
    HalfSmall(x);
    PushBit(Odd(x), Half(x));
    HalfOddDetermine(Xor(In(Odd(x)), Double(Half(x))), x);
  }

  lemma {:induction false} PackLowBits(x: bv16, n: nat)
    requires Below(x, n)
    ensures Pack(LowBits(x, n)) == x
    decreases n
  {
    hide Xor, In, Odd, Half, Double;
    if n > 0 {
      PackLowBits(Half(x), n - 1);
      Recompose(x);
      assert LowBits(x, n)[1..] == LowBits(Half(x), n - 1);
    }
  }

  lemma WordBelow8(b: bv8)
    ensures Below(Word(b), 8)
  {
    var x := Word(b);
    assert Below(Half(Half(Half(Half(Half(Half(Half(Half(x)))))))), 0);
  }

  lemma PackBits8(b: bv8)
    ensures Pack(Bits8(b)) == Word(b)
  {
    WordBelow8(b);
    PackLowBits(Word(b), 8);
  }

  lemma {:induction false} FeedBits(s: bv16, data: seq<bv8>)
    ensures Feed(s, Bits(data)) == BitSerial(s, data)
    decreases |data|
  {
    hide Xor, Steps, Word, Bits8, Pack;
    if data != [] {
      var b := data[0];
      FeedIsSteps(s, Bits8(b));
      PackBits8(b);
      FeedConcat(s, Bits8(b), Bits(data[1..]));
      FeedBits(ByteStep(s, b), data[1..]);
    }
  }

  lemma {:induction false} BitsInjective(x: seq<bv8>, y: seq<bv8>)
    requires |x| == |y| && Bits(x) == Bits(y)
    ensures x == y
    decreases |x|
  {
    hide Bits8, Pack, Word;
    if x != [] {
      assert Bits8(x[0]) == Bits(x)[..8] && Bits8(y[0]) == Bits(y)[..8];
      assert Bits(x[1..]) == Bits(x)[8..] && Bits(y[1..]) == Bits(y)[8..];
      PackBits8(x[0]);
      PackBits8(y[0]);
      WordInjective(x[0], y[0]);
      BitsInjective(x[1..], y[1..]);
      assert x == [x[0]] + x[1..] && y == [y[0]] + y[1..];
    }
  }

  lemma WordInjective(a: bv8, b: bv8)
    requires Word(a) == Word(b)
    ensures a == b
  {
  }

  // --- Error detection -----------------------------------------------------

  lemma SwapInjective(a: bv16, b: bv16)
    requires Swap(a) == Swap(b)
    ensures a == b
  {
    hide Swap;
    SwapSwap(a);
    SwapSwap(b);
  }

  /** Two different messages of one length whose bits agree outside some 16-bit
      window never share a CRC, whatever the length, position and start value. */
  lemma BurstDetected(init: bv16, x: seq<bv8>, y: seq<bv8>, i: nat)
    requires |x| == |y| && x != y
    requires forall j :: 0 <= j < 8 * |x| && !(i <= j < i + 16) ==> Bits(x)[j] == Bits(y)[j]
    ensures Crc(init, x) != Crc(init, y)
  {
    hide Bits, BitSerial, Swap, Feed;
    var u, v, n := Bits(x), Bits(y), 8 * |x|;
    var lo, hi := if i < n then i else n, if i + 16 < n then i + 16 else n;
    assert u[..lo] == v[..lo] && u[hi..] == v[hi..];
    assert u == u[..lo] + u[lo..hi] + u[hi..] && v == v[..lo] + v[lo..hi] + v[hi..];
    if Crc(init, x) == Crc(init, y) {
      var s := Swap(init);
      SwapInjective(BitSerial(s, x), BitSerial(s, y));
      FeedBits(s, x);
      FeedBits(s, y);
      SplitFeed(s, u[..lo], u[lo..hi], u[hi..]);
      SplitFeed(s, v[..lo], v[lo..hi], v[hi..]);
      FeedInjective(Feed(Feed(s, u[..lo]), u[lo..hi]), Feed(Feed(s, u[..lo]), v[lo..hi]), u[hi..]);
      WindowInjective(Feed(s, u[..lo]), u[lo..hi], v[lo..hi]);
      BitsInjective(x, y);
    }
  }

  lemma SplitFeed(s: bv16, u: seq<bool>, v: seq<bool>, w: seq<bool>)
    ensures Feed(s, u + v + w) == Feed(Feed(Feed(s, u), v), w)
  {
    hide Feed;
    FeedConcat(s, u + v, w);
    FeedConcat(s, u, v);
  }

  lemma {:induction false} BitsConcat(a: seq<bv8>, b: seq<bv8>)
    ensures Bits(a + b) == Bits(a) + Bits(b)
    decreases |a|
  {
    hide Bits8;
    if a == [] {
      assert a + b == b;
    } else {
      assert (a + b)[1..] == a[1..] + b;
      BitsConcat(a[1..], b);
    }
  }

  /** In particular any error confined to two adjacent bytes is detected. */
  lemma AdjacentBytesDetected(init: bv16, p: seq<bv8>, u: seq<bv8>, v: seq<bv8>, q: seq<bv8>)
    requires |u| == |v| <= 2 && u != v
    ensures Crc(init, p + u + q) != Crc(init, p + v + q)
  {
    hide Bits, Crc;
    var x, y := p + u + q, p + v + q;
    BitsConcat(p + u, q); BitsConcat(p, u);
    BitsConcat(p + v, q); BitsConcat(p, v);
    assert x[|p|..|p| + |u|] == u && y[|p|..|p| + |u|] == v;
    BurstDetected(init, x, y, 8 * |p|);
  }

  /** The number of bit positions in which two equal-length strings differ. */
  function Distance(u: seq<bool>, v: seq<bool>): nat
    requires |u| == |v|
    decreases |u|
  {
    if u == [] then 0 else (if u[0] != v[0] then 1 else 0) + Distance(u[1..], v[1..])
  }

  function Parity(u: seq<bool>): bool
    decreases |u|
  {
    if u == [] then false else u[0] != Parity(u[1..])
  }

  lemma {:induction false} DistanceParity(u: seq<bool>, v: seq<bool>)
    requires |u| == |v|
    ensures Distance(u, v) % 2 == 1 <==> Parity(u) != Parity(v)
    decreases |u|
  {
    if u != [] { DistanceParity(u[1..], v[1..]); }
  }

  /** Parity of the n low bits of the register. */
  function RegParity(x: bv16, n: nat): bool
    decreases n
  {
    if n == 0 then false else Odd(x) != RegParity(Half(x), n - 1)
  }

  lemma {:induction false} RegParityXor(x: bv16, y: bv16, n: nat)
    ensures RegParity(Xor(x, y), n) == (RegParity(x, n) != RegParity(y, n))
    decreases n
  {
    hide Xor, Half, Odd;
    if n > 0 {
      HalfXor(x, y);
      OddXor(x, y);
      RegParityXor(Half(x), Half(y), n - 1);
    }
  }

  lemma ZeroParity(n: nat)
    ensures !RegParity(0, n)
    decreases n
  {
    assert Half(0) == 0 && !Odd(0);
    hide Half, Odd;
    if n > 0 { ZeroParity(n - 1); }
  }

  lemma {:induction false} RegParityBelow(x: bv16, n: nat)
    requires Below(x, n)
    ensures RegParity(x, n + 1) == RegParity(x, n)
    decreases n
  {
    hide Half, Odd;
    if n == 0 {
      ZeroParity(1);
    } else {
      RegParityBelow(Half(x), n - 1);
    }
  }

  lemma HalfBelow15(x: bv16)
    ensures Below(Half(x), 15)
  {
  }

  lemma PolynomialParity()
    ensures RegParity(0xA001, 16)
  {
    assert !RegParity(0x0005, 3) && !RegParity(0x0014, 5) && !RegParity(0x0050, 7) && !RegParity(0x0140, 9);
    assert !RegParity(0x0500, 11) && !RegParity(0x1400, 13) && !RegParity(0x5000, 15);
  }

  /** A shift keeps the parity of the register: the polynomial has factor x + 1. */
  lemma BitStepParity(x: bv16)
    ensures RegParity(BitStep(x), 16) == RegParity(x, 16)
  {
    hide Xor, Half, Odd;
    HalfBelow15(x);
    RegParityBelow(Half(x), 15);
    PolynomialParity();
    RegParityXor(Half(x), 0xA001, 16);
  }

  lemma InParity(bit: bool)
    ensures RegParity(In(bit), 16) == bit
  {
    hide Half, Odd;
    assert Half(1) == 0 && Odd(1) && Half(0) == 0 && !Odd(0) by { OneHalves(); }
    ZeroParity(15);
  }

  lemma {:induction false} FeedParity(s: bv16, u: seq<bool>)
    ensures RegParity(Feed(s, u), 16) == (RegParity(s, 16) != Parity(u))
    decreases |u|
  {
    hide Xor, BitStep, In, RegParity;
    if u != [] {
      var t := Xor(s, In(u[0]));
      RegParityXor(s, In(u[0]), 16);
      InParity(u[0]);
      BitStepParity(t);
      FeedParity(BitStep(t), u[1..]);
    }
  }

  /** Any odd number of flipped bits changes the CRC. */
  lemma OddErrorsDetected(init: bv16, x: seq<bv8>, y: seq<bv8>)
    requires |x| == |y| && Distance(Bits(x), Bits(y)) % 2 == 1
    ensures Crc(init, x) != Crc(init, y)
  {
    hide Bits, BitSerial, Swap, Feed, RegParity;
    var s := Swap(init);
    DistanceParity(Bits(x), Bits(y));
    FeedBits(s, x);
    FeedBits(s, y);
    FeedParity(s, Bits(x));
    FeedParity(s, Bits(y));
    if Crc(init, x) == Crc(init, y) {
      SwapInjective(BitSerial(s, x), BitSerial(s, y));
    }
  }

  // --- The check value --------------------------------------------------------

  lemma NextByte(data: seq<bv8>, k: nat, t: bv16, u: bv16)
    requires k < |data| && BitSerial(0xFFFF, data[..k]) == t && EightSteps(Xor(t, Word(data[k]))) == u
    ensures BitSerial(0xFFFF, data[..k + 1]) == u
  {
    hide BitStep, Xor, Word, EightSteps;
    BitSerialConcat(0xFFFF, data[..k], [data[k]]);
    EightStepsIsSteps(Xor(t, Word(data[k])));
    assert [data[k]][1..] == [] && data[..k + 1] == data[..k] + [data[k]];
  }

  /** The digits 1 to 9 from 0xFFFF give 0x4B37, low byte first. */
  lemma CheckValue()
    ensures Crc(0xFFFF, [0x31, 0x32, 0x33, 0x34, 0x35, 0x36, 0x37, 0x38, 0x39]) == 0x374B
  {
    hide BitSerial;
    var digits: seq<bv8> := [0x31, 0x32, 0x33, 0x34, 0x35, 0x36, 0x37, 0x38, 0x39];
    assert BitSerial(0xFFFF, digits[..0]) == 0xFFFF by { NoBytes(); }
    NextByte(digits, 0, 0xFFFF, 0x947E);
    NextByte(digits, 1, 0x947E, 0xF595);
    NextByte(digits, 2, 0xF595, 0x7A75);
    NextByte(digits, 3, 0x7A75, 0x30BA);
    NextByte(digits, 4, 0x30BA, 0xA471);
    NextByte(digits, 5, 0xA471, 0x32E4);
    NextByte(digits, 6, 0x32E4, 0x9D73);
    NextByte(digits, 7, 0x9D73, 0x37DD);
    NextByte(digits, 8, 0x37DD, 0x4B37);
    assert digits[..9] == digits;
    SwapCheck();
  }

  lemma NoBytes()
    ensures BitSerial(0xFFFF, []) == 0xFFFF
  {
  }

  lemma SwapCheck()
    ensures Swap(0xFFFF) == 0xFFFF && Swap(0x4B37) == 0x374B
  {
  }
}
