/** The table-driven checksum against the bit-serial shift register, and the errors it detects. */
module Crc32 {
  import opened Words

  type byte = bv8

  // ----- Words

  function And(x: word, y: word): word { x & y }

  function Half(x: word): word { x >> 1 }

  function Double(x: word): word { x << 1 }

  predicate Odd(x: word) { x & 1 == 1 }

  predicate TopClear(x: word) { x < 0x8000_0000 }

  function Bit(b: bool): word { if b then 1 else 0 }

  lemma {:induction false} HalfOfXor(x: word, y: word)
    ensures Half(Xor(x, y)) == Xor(Half(x), Half(y))
    ensures Odd(Xor(x, y)) <==> Odd(x) != Odd(y)
  {
  }

  /** A word is its lowest bit and the rest. */
  lemma {:induction false} Split(x: word)
    ensures Xor(Bit(Odd(x)), Double(Half(x))) == x
    ensures TopClear(Half(x))
  {
  }

  lemma {:induction false} Unsplit(b: bool, p: word)
    requires TopClear(p)
    ensures Odd(Xor(Bit(b), Double(p))) == b && Half(Xor(Bit(b), Double(p))) == p
  {
  }

  // ----- The shift register

  const POLYNOMIAL: word := 0xedb8_8320

  /** One turn of the register. */
  function Shift(x: word): word {
    if Odd(x) then Xor(Half(x), POLYNOMIAL) else Half(x)
  }

  function Shifts(x: word, n: nat): word
    decreases n
  {
    if n == 0 then x else Shifts(Shift(x), n - 1)
  }

  function Halves(x: word, n: nat): word
    decreases n
  {
    if n == 0 then x else Halves(Half(x), n - 1)
  }

  /** One message bit enters the register. */
  function Feed(r: word, b: bool): word {
    Shift(Xor(r, Bit(b)))
  }

  /** The register after a run of message bits. */
  function Register(r: word, bits: seq<bool>): word
    decreases |bits|
  {
    if bits == [] then r else Register(Feed(r, bits[0]), bits[1..])
  }

  lemma {:induction false} ShiftOfXor(x: word, y: word)
    ensures Shift(Xor(x, y)) == Xor(Shift(x), Shift(y))
  {
    hide Xor, Half, Odd;
    HalfOfXor(x, y);
    var a, b, p := Half(x), Half(y), POLYNOMIAL;
    XorSwaps(a, p, b, p);
    XorUnits(p);
    XorUnits(Xor(a, b));
    XorAssociates(a, b, p);
    XorAssociates(a, p, b);
    XorCommutes(b, p);
  }

  lemma {:induction false} ShiftOfZero()
    ensures Shift(0) == 0
  {
  }

  /** The polynomial has its top bit set, so a turn loses nothing. */
  lemma {:induction false} ShiftInjective(x: word, y: word)
    requires Shift(x) == Shift(y)
    ensures x == y
  {
  }

  lemma {:induction false} ShiftsOfXor(x: word, y: word, n: nat)
    ensures Shifts(Xor(x, y), n) == Xor(Shifts(x, n), Shifts(y, n))
    decreases n
  {
    hide Xor, Shift;
    if n > 0 {
      ShiftOfXor(x, y);
      ShiftsOfXor(Shift(x), Shift(y), n - 1);
    }
  }

  lemma {:induction false} ShiftsInjective(x: word, y: word, n: nat)
    requires Shifts(x, n) == Shifts(y, n)
    ensures x == y
    decreases n
  {
    hide Shift;
    if n > 0 {
      ShiftsInjective(Shift(x), Shift(y), n - 1);
      ShiftInjective(x, y);
    }
  }

  lemma {:induction false} RegisterOfConcat(r: word, a: seq<bool>, b: seq<bool>)
    ensures Register(r, a + b) == Register(Register(r, a), b)
    decreases |a|
  {
    hide Feed;
    if a == [] {
      assert a + b == b;
    } else {
      assert (a + b)[1..] == a[1..] + b;
      RegisterOfConcat(Feed(r, a[0]), a[1..], b);
    }
  }

  /** The same further bits keep different registers different. */
  lemma {:induction false} RegisterInjective(r: word, s: word, bits: seq<bool>)
    requires Register(r, bits) == Register(s, bits)
    ensures r == s
    decreases |bits|
  {
    hide Xor, Shift;
    if bits != [] {
      var b := Bit(bits[0]);
      RegisterInjective(Feed(r, bits[0]), Feed(s, bits[0]), bits[1..]);
      ShiftInjective(Xor(r, b), Xor(s, b));
      XorCommutes(r, b);
      XorCommutes(s, b);
      XorInjective(b, r, s);
    }
  }

  // ----- Up to 32 bits at once

  /** The word with the given bits, lowest first. */
  function Pack(bits: seq<bool>): word
    decreases |bits|
  {
    if bits == [] then 0 else Xor(Bit(bits[0]), Double(Pack(bits[1..])))
  }

  function Unpack(x: word, n: nat): (bits: seq<bool>)
    ensures |bits| == n
  {
    if n == 0 then [] else [Odd(x)] + Unpack(Half(x), n - 1)
  }

  lemma {:induction false} HalvesOfAnd(x: word, m: word, n: nat)
    ensures Halves(And(x, m), n) == And(Halves(x, n), Halves(m, n))
    decreases n
  {
    hide And, Half;
    if n > 0 {
      HalfOfAnd(x, m);
      HalvesOfAnd(Half(x), Half(m), n - 1);
    }
  }

  lemma {:induction false} HalfOfAnd(x: word, m: word)
    ensures Half(And(x, m)) == And(Half(x), Half(m))
  {
  }

  lemma {:induction false} HalvesSplit(x: word, m: nat, n: nat)
    ensures Halves(x, m + n) == Halves(Halves(x, m), n)
    ensures Halves(0, n) == 0
    decreases m, n
  {
    hide Half;
    if m > 0 {
      HalvesSplit(Half(x), m - 1, n);
    } else if n > 0 {
      HalfOfZero();
      HalvesSplit(x, 0, n - 1);
    }
  }

  lemma {:induction false} HalfOfZero()
    ensures Half(0) == 0
  {
  }

  lemma {:induction false} TopBitFalls()
    ensures Halves(0x8000_0000, 31) == 1
  {
    HalvesSplit(0x8000_0000, 8, 23);
    HalvesSplit(0x80_0000, 8, 15);
    HalvesSplit(0x8000, 8, 7);
    EightHalves(0x8000_0000);
    EightHalves(0x80_0000);
    EightHalves(0x8000);
    assert Half(0x80) == 0x40 && Half(0x40) == 0x20 && Half(0x20) == 0x10 && Half(0x10) == 8;
    assert Halves(0x80, 7) == Halves(0x40, 6) == Halves(0x20, 5) == Halves(0x10, 4) == Halves(8, 3);
  }

  lemma {:induction false} HalfSteps(x: word)
    ensures Half(x) == x >> 1 && Half(x >> 1) == x >> 2 && Half(x >> 2) == x >> 3 && Half(x >> 3) == x >> 4
    ensures Half(x >> 4) == x >> 5 && Half(x >> 5) == x >> 6 && Half(x >> 6) == x >> 7 && Half(x >> 7) == x >> 8
  {
  }

  lemma {:induction false} EightHalves(x: word)
    ensures Halves(x, 8) == x >> 8
  {
    hide Half;
    HalfSteps(x);
    assert Halves(x, 8) == Halves(x >> 1, 7) == Halves(x >> 2, 6) == Halves(x >> 3, 5) == Halves(x >> 4, 4);
    assert Halves(x >> 4, 4) == Halves(x >> 5, 3) == Halves(x >> 6, 2) == Halves(x >> 7, 1) == Halves(x >> 8, 0);
  }

  /** A word of at most 31 bits has its top bit clear. */
  lemma {:induction false} FewBits(x: word, n: nat)
    requires n <= 31 && Halves(x, n) == 0
    ensures TopClear(x)
  {
    hide Halves, Half, And;
    if !TopClear(x) {
      TopBitSet(x);
      HalvesSplit(x, n, 31 - n);
      HalvesOfAnd(x, 0x8000_0000, 31);
      TopBitFalls();
      ZeroAnd();
    }
  }

  lemma {:induction false} ZeroAnd()
    ensures And(0, 1) != 1
  {
  }

  lemma {:induction false} TopBitSet(x: word)
    requires !TopClear(x)
    ensures And(x, 0x8000_0000) == 0x8000_0000
  {
  }

  lemma {:induction false} PackFits(bits: seq<bool>)
    requires |bits| <= 32
    ensures Halves(Pack(bits), |bits|) == 0
    ensures |bits| <= 31 ==> TopClear(Pack(bits))
    ensures Unpack(Pack(bits), |bits|) == bits
    decreases |bits|
  {
    hide Xor, Half, Double, Bit, Odd, TopClear;
    if bits != [] {
      PackFits(bits[1..]);
      Unsplit(bits[0], Pack(bits[1..]));
    }
    if |bits| <= 31 {
      FewBits(Pack(bits), |bits|);
    }
  }

  lemma {:induction false} UnpackPacks(x: word, n: nat)
    requires Halves(x, n) == 0
    ensures Pack(Unpack(x, n)) == x
    decreases n
  {
    hide Xor, Half, Double, Bit, Odd;
    if n > 0 {
      UnpackPacks(Half(x), n - 1);
      Split(x);
    }
  }

  /** Feeding bits one by one is laying them over the register at once and turning it as often. */
  lemma {:induction false} FeedAtOnce(r: word, bits: seq<bool>)
    requires |bits| <= 32
    ensures Register(r, bits) == Shifts(Xor(r, Pack(bits)), |bits|)
    decreases |bits|
  {
    hide Xor, Shift, Double, Bit;
    if bits == [] {
      XorUnits(r);
    } else {
      var b, p := Bit(bits[0]), Pack(bits[1..]);
      FeedAtOnce(Feed(r, bits[0]), bits[1..]);
      PackFits(bits[1..]);
      XorAssociates(r, b, Double(p));
      ShiftOfXor(Xor(r, b), Double(p));
      ShiftOfDouble(p);
    }
  }

  lemma {:induction false} ShiftOfDouble(p: word)
    requires TopClear(p)
    ensures Shift(Double(p)) == p
  {
  }

  // ----- Bytes and the table

  /** The bits of a buffer in the order in which they enter: lowest bit of each byte first. */
  function Bits(s: seq<byte>): (bits: seq<bool>)
    ensures |bits| == 8 * |s|
    decreases |s|
  {
    if s == [] then [] else Unpack(s[0] as word, 8) + Bits(s[1..])
  }

  // ----- The constant table, eight entries to a line, in eight blocks of four lines

  /** The entry of a line that the three lowest bits of the index name. */
  function Pick(c: byte, a0: word, a1: word, a2: word, a3: word, a4: word, a5: word, a6: word, a7: word): word {
    if c & 4 == 0 then
      if c & 2 == 0 then (if c & 1 == 0 then a0 else a1) else (if c & 1 == 0 then a2 else a3)
    else
      if c & 2 == 0 then (if c & 1 == 0 then a4 else a5) else (if c & 1 == 0 then a6 else a7)
  }

  /** The line of a block, or half of the blocks, that two bits of the index name. */
  function Choose(high: bool, low: bool, a0: word, a1: word, a2: word, a3: word): word {
    if !high then (if !low then a0 else a1) else (if !low then a2 else a3)
  }

  function Block0(c: byte): word {
    Choose(c & 16 != 0, c & 8 != 0,
      Pick(c, 0x0000_0000, 0x7707_3096, 0xee0e_612c, 0x9909_51ba,
              0x076d_c419, 0x706a_f48f, 0xe963_a535, 0x9e64_95a3),
      Pick(c, 0x0edb_8832, 0x79dc_b8a4, 0xe0d5_e91e, 0x97d2_d988,
              0x09b6_4c2b, 0x7eb1_7cbd, 0xe7b8_2d07, 0x90bf_1d91),
      Pick(c, 0x1db7_1064, 0x6ab0_20f2, 0xf3b9_7148, 0x84be_41de,
              0x1ada_d47d, 0x6ddd_e4eb, 0xf4d4_b551, 0x83d3_85c7),
      Pick(c, 0x136c_9856, 0x646b_a8c0, 0xfd62_f97a, 0x8a65_c9ec,
              0x1401_5c4f, 0x6306_6cd9, 0xfa0f_3d63, 0x8d08_0df5))
  }

  function Block1(c: byte): word {
    Choose(c & 16 != 0, c & 8 != 0,
      Pick(c, 0x3b6e_20c8, 0x4c69_105e, 0xd560_41e4, 0xa267_7172,
              0x3c03_e4d1, 0x4b04_d447, 0xd20d_85fd, 0xa50a_b56b),
      Pick(c, 0x35b5_a8fa, 0x42b2_986c, 0xdbbb_c9d6, 0xacbc_f940,
              0x32d8_6ce3, 0x45df_5c75, 0xdcd6_0dcf, 0xabd1_3d59),
      Pick(c, 0x26d9_30ac, 0x51de_003a, 0xc8d7_5180, 0xbfd0_6116,
              0x21b4_f4b5, 0x56b3_c423, 0xcfba_9599, 0xb8bd_a50f),
      Pick(c, 0x2802_b89e, 0x5f05_8808, 0xc60c_d9b2, 0xb10b_e924,
              0x2f6f_7c87, 0x5868_4c11, 0xc161_1dab, 0xb666_2d3d))
  }

  function Block2(c: byte): word {
    Choose(c & 16 != 0, c & 8 != 0,
      Pick(c, 0x76dc_4190, 0x01db_7106, 0x98d2_20bc, 0xefd5_102a,
              0x71b1_8589, 0x06b6_b51f, 0x9fbf_e4a5, 0xe8b8_d433),
      Pick(c, 0x7807_c9a2, 0x0f00_f934, 0x9609_a88e, 0xe10e_9818,
              0x7f6a_0dbb, 0x086d_3d2d, 0x9164_6c97, 0xe663_5c01),
      Pick(c, 0x6b6b_51f4, 0x1c6c_6162, 0x8565_30d8, 0xf262_004e,
              0x6c06_95ed, 0x1b01_a57b, 0x8208_f4c1, 0xf50f_c457),
      Pick(c, 0x65b0_d9c6, 0x12b7_e950, 0x8bbe_b8ea, 0xfcb9_887c,
              0x62dd_1ddf, 0x15da_2d49, 0x8cd3_7cf3, 0xfbd4_4c65))
  }

  function Block3(c: byte): word {
    Choose(c & 16 != 0, c & 8 != 0,
      Pick(c, 0x4db2_6158, 0x3ab5_51ce, 0xa3bc_0074, 0xd4bb_30e2,
              0x4adf_a541, 0x3dd8_95d7, 0xa4d1_c46d, 0xd3d6_f4fb),
      Pick(c, 0x4369_e96a, 0x346e_d9fc, 0xad67_8846, 0xda60_b8d0,
              0x4404_2d73, 0x3303_1de5, 0xaa0a_4c5f, 0xdd0d_7cc9),
      Pick(c, 0x5005_713c, 0x2702_41aa, 0xbe0b_1010, 0xc90c_2086,
              0x5768_b525, 0x206f_85b3, 0xb966_d409, 0xce61_e49f),
      Pick(c, 0x5ede_f90e, 0x29d9_c998, 0xb0d0_9822, 0xc7d7_a8b4,
              0x59b3_3d17, 0x2eb4_0d81, 0xb7bd_5c3b, 0xc0ba_6cad))
  }

  function Block4(c: byte): word {
    Choose(c & 16 != 0, c & 8 != 0,
      Pick(c, 0xedb8_8320, 0x9abf_b3b6, 0x03b6_e20c, 0x74b1_d29a,
              0xead5_4739, 0x9dd2_77af, 0x04db_2615, 0x73dc_1683),
      Pick(c, 0xe363_0b12, 0x9464_3b84, 0x0d6d_6a3e, 0x7a6a_5aa8,
              0xe40e_cf0b, 0x9309_ff9d, 0x0a00_ae27, 0x7d07_9eb1),
      Pick(c, 0xf00f_9344, 0x8708_a3d2, 0x1e01_f268, 0x6906_c2fe,
              0xf762_575d, 0x8065_67cb, 0x196c_3671, 0x6e6b_06e7),
      Pick(c, 0xfed4_1b76, 0x89d3_2be0, 0x10da_7a5a, 0x67dd_4acc,
              0xf9b9_df6f, 0x8ebe_eff9, 0x17b7_be43, 0x60b0_8ed5))
  }

  function Block5(c: byte): word {
    Choose(c & 16 != 0, c & 8 != 0,
      Pick(c, 0xd6d6_a3e8, 0xa1d1_937e, 0x38d8_c2c4, 0x4fdf_f252,
              0xd1bb_67f1, 0xa6bc_5767, 0x3fb5_06dd, 0x48b2_364b),
      Pick(c, 0xd80d_2bda, 0xaf0a_1b4c, 0x3603_4af6, 0x4104_7a60,
              0xdf60_efc3, 0xa867_df55, 0x316e_8eef, 0x4669_be79),
      Pick(c, 0xcb61_b38c, 0xbc66_831a, 0x256f_d2a0, 0x5268_e236,
              0xcc0c_7795, 0xbb0b_4703, 0x2202_16b9, 0x5505_262f),
      Pick(c, 0xc5ba_3bbe, 0xb2bd_0b28, 0x2bb4_5a92, 0x5cb3_6a04,
              0xc2d7_ffa7, 0xb5d0_cf31, 0x2cd9_9e8b, 0x5bde_ae1d))
  }

  function Block6(c: byte): word {
    Choose(c & 16 != 0, c & 8 != 0,
      Pick(c, 0x9b64_c2b0, 0xec63_f226, 0x756a_a39c, 0x026d_930a,
              0x9c09_06a9, 0xeb0e_363f, 0x7207_6785, 0x0500_5713),
      Pick(c, 0x95bf_4a82, 0xe2b8_7a14, 0x7bb1_2bae, 0x0cb6_1b38,
              0x92d2_8e9b, 0xe5d5_be0d, 0x7cdc_efb7, 0x0bdb_df21),
      Pick(c, 0x86d3_d2d4, 0xf1d4_e242, 0x68dd_b3f8, 0x1fda_836e,
              0x81be_16cd, 0xf6b9_265b, 0x6fb0_77e1, 0x18b7_4777),
      Pick(c, 0x8808_5ae6, 0xff0f_6a70, 0x6606_3bca, 0x1101_0b5c,
              0x8f65_9eff, 0xf862_ae69, 0x616b_ffd3, 0x166c_cf45))
  }

  function Block7(c: byte): word {
    Choose(c & 16 != 0, c & 8 != 0,
      Pick(c, 0xa00a_e278, 0xd70d_d2ee, 0x4e04_8354, 0x3903_b3c2,
              0xa767_2661, 0xd060_16f7, 0x4969_474d, 0x3e6e_77db),
      Pick(c, 0xaed1_6a4a, 0xd9d6_5adc, 0x40df_0b66, 0x37d8_3bf0,
              0xa9bc_ae53, 0xdebb_9ec5, 0x47b2_cf7f, 0x30b5_ffe9),
      Pick(c, 0xbdbd_f21c, 0xcaba_c28a, 0x53b3_9330, 0x24b4_a3a6,
              0xbad0_3605, 0xcdd7_0693, 0x54de_5729, 0x23d9_67bf),
      Pick(c, 0xb366_7a2e, 0xc461_4ab8, 0x5d68_1b02, 0x2a6f_2b94,
              0xb40b_be37, 0xc30c_8ea1, 0x5a05_df1b, 0x2d02_ef8d))
  }

  function Table(c: byte): word {
    if c & 128 == 0 then Choose(c & 64 != 0, c & 32 != 0, Block0(c), Block1(c), Block2(c), Block3(c))
    else Choose(c & 64 != 0, c & 32 != 0, Block4(c), Block5(c), Block6(c), Block7(c))
  }

  /** The bit of an index with a given weight, as a word. */
  function Weight(c: byte, bit: byte, w: word): word {
    if c & bit == 0 then 0 else w
  }

  /** The exclusive or of eight words, those of the bits set in an index. */
  function OfBits(c: byte, w1: word, w2: word, w4: word, w8: word, w16: word, w32: word, w64: word, w128: word): word {
    Xor(Xor(Xor(Weight(c, 1, w1), Weight(c, 2, w2)), Xor(Weight(c, 4, w4), Weight(c, 8, w8))),
        Xor(Xor(Weight(c, 16, w16), Weight(c, 32, w32)), Xor(Weight(c, 64, w64), Weight(c, 128, w128))))
  }

  /** The entries for the bits of the index from the lowest up to 16, and from 32 on. */
  function LowBits(c: byte): word {
    Xor(Xor(Xor(Weight(c, 1, 0x7707_3096), Weight(c, 2, 0xee0e_612c)), Xor(Weight(c, 4, 0x076d_c419), Weight(c, 8, 0x0edb_8832))),
        Weight(c, 16, 0x1db7_1064))
  }

  function HighBits(c: byte): word {
    Xor(Weight(c, 32, 0x3b6e_20c8), Xor(Weight(c, 64, 0x76dc_4190), Weight(c, 128, 0xedb8_8320)))
  }

  lemma {:induction false} Block0Linear(c: byte)
    ensures Block0(c) == LowBits(c)
  {
  }

  lemma {:induction false} Block1Linear(c: byte)
    ensures Block1(c) == Xor(LowBits(c), 0x3b6e_20c8)
  {
  }

  lemma {:induction false} Block2Linear(c: byte)
    ensures Block2(c) == Xor(LowBits(c), 0x76dc_4190)
  {
  }

  lemma {:induction false} Block3Linear(c: byte)
    ensures Block3(c) == Xor(LowBits(c), 0x4db2_6158)
  {
  }

  lemma {:induction false} Block4Linear(c: byte)
    ensures Block4(c) == Xor(LowBits(c), 0xedb8_8320)
  {
  }

  lemma {:induction false} Block5Linear(c: byte)
    ensures Block5(c) == Xor(LowBits(c), 0xd6d6_a3e8)
  {
  }

  lemma {:induction false} Block6Linear(c: byte)
    ensures Block6(c) == Xor(LowBits(c), 0x9b64_c2b0)
  {
  }

  lemma {:induction false} Block7Linear(c: byte)
    ensures Block7(c) == Xor(LowBits(c), 0xa00a_e278)
  {
  }

  /** The constants of the eight blocks are the entries of the three highest bits. */
  lemma {:induction false} HighBitsOf(c: byte)
    ensures HighBits(c) ==
      if c & 128 == 0 then Choose(c & 64 != 0, c & 32 != 0, 0x0000_0000, 0x3b6e_20c8, 0x76dc_4190, 0x4db2_6158)
      else Choose(c & 64 != 0, c & 32 != 0, 0xedb8_8320, 0xd6d6_a3e8, 0x9b64_c2b0, 0xa00a_e278)
  {
  }

  lemma {:induction false} TableLinear(c: byte)
    ensures Table(c) == Xor(LowBits(c), HighBits(c))
  {
    hide Xor, LowBits, HighBits;
    hide Block0, Block1, Block2, Block3, Block4, Block5, Block6, Block7;
    HighBitsOf(c);
    Block0Linear(c);
    XorUnits(LowBits(c));
    Block1Linear(c);
    Block2Linear(c);
    Block3Linear(c);
    Block4Linear(c);
    Block5Linear(c);
    Block6Linear(c);
    Block7Linear(c);
  }

  function LowByte(x: word): byte {
    (x & 0xff) as byte
  }

  /** The update of the checksum for one byte. */
  function TableStep(r: word, c: byte): word {
    Xor(Table(LowByte(Xor(r, c as word))), r >> 8)
  }

  lemma {:induction false} ByteFits(c: byte)
    ensures Halves(c as word, 8) == 0
  {
    EightHalves(c as word);
    ByteSmall(c);
  }

  lemma {:induction false} ByteSmall(c: byte)
    ensures (c as word) >> 8 == 0
  {
  }

  /** A word whose n lowest bits are clear is only moved by n turns. */
  predicate LowClear(x: word, n: nat)
    decreases n
  {
    n == 0 || (!Odd(x) && LowClear(Half(x), n - 1))
  }

  lemma {:induction false} ShiftsMove(x: word, n: nat)
    requires LowClear(x, n)
    ensures Shifts(x, n) == Halves(x, n)
    decreases n
  {
    hide Half, Odd;
    if n > 0 {
      ShiftsMove(Half(x), n - 1);
    }
  }

  function HighPart(x: word): word { x & 0xffff_ff00 }

  function LowPart(x: word): word { x & 0xff }

  lemma {:induction false} Parts(x: word)
    ensures Xor(LowPart(x), HighPart(x)) == x
    ensures HighPart(x) >> 8 == x >> 8
    ensures (LowByte(x) as word) == LowPart(x)
  {
  }

  lemma {:induction false} EvenAnd(x: word, m: word)
    requires !Odd(m)
    ensures !Odd(And(x, m))
  {
  }

  lemma {:induction false} LowClearAnd(x: word, m: word, n: nat)
    requires LowClear(m, n)
    ensures LowClear(And(x, m), n)
    decreases n
  {
    hide Odd, Half, And;
    if n > 0 {
      EvenAnd(x, m);
      HalfOfAnd(x, m);
      LowClearAnd(Half(x), Half(m), n - 1);
    }
  }

  lemma {:induction false} HighPartClear(x: word)
    ensures LowClear(HighPart(x), 8)
  {
    assert LowClear(0xffff_ff00, 8) by {
      assert Half(0xffff_ff00) == 0x7fff_ff80 && Half(0x7fff_ff80) == 0x3fff_ffc0 && Half(0x3fff_ffc0) == 0x1fff_ffe0;
      assert Half(0x1fff_ffe0) == 0x0fff_fff0 && Half(0x0fff_fff0) == 0x07ff_fff8 && Half(0x07ff_fff8) == 0x03ff_fffc;
      assert Half(0x03ff_fffc) == 0x01ff_fffe;
    }
    LowClearAnd(x, 0xffff_ff00, 8);
    assert HighPart(x) == And(x, 0xffff_ff00);
  }

  // ----- The table is eight turns of the register

  lemma {:induction false} MasksAdd(x: word)
    ensures (x & 1) ^ (x & 2) == x & 3 && (x & 4) ^ (x & 8) == x & 12
    ensures (x & 16) ^ (x & 32) == x & 48 && (x & 64) ^ (x & 128) == x & 192
    ensures (x & 3) ^ (x & 12) == x & 15 && (x & 48) ^ (x & 192) == x & 240
    ensures (x & 15) ^ (x & 240) == x & 255
  {
  }

  lemma {:induction false} WeightIsAnd(c: byte)
    ensures Weight(c, 1, 1) == And(c as word, 1) && Weight(c, 2, 2) == And(c as word, 2)
    ensures Weight(c, 4, 4) == And(c as word, 4) && Weight(c, 8, 8) == And(c as word, 8)
    ensures Weight(c, 16, 16) == And(c as word, 16) && Weight(c, 32, 32) == And(c as word, 32)
    ensures Weight(c, 64, 64) == And(c as word, 64) && Weight(c, 128, 128) == And(c as word, 128)
  {
  }

  lemma {:induction false} ByteMasked(c: byte)
    ensures And(c as word, 255) == c as word
  {
  }

  lemma {:induction false} ByteOfWeights(c: byte)
    ensures c as word == OfBits(c, 1, 2, 4, 8, 16, 32, 64, 128)
  {
    hide Weight;
    WeightIsAnd(c);
    MasksAdd(c as word);
    ByteMasked(c);
  }

  lemma {:induction false} TableOfWeights(c: byte)
    ensures Table(c) == OfBits(c, 0x7707_3096, 0xee0e_612c, 0x076d_c419, 0x0edb_8832, 0x1db7_1064, 0x3b6e_20c8, 0x76dc_4190, 0xedb8_8320)
  {
    hide Xor, Weight, Table;
    TableLinear(c);
    var low := Xor(Xor(Weight(c, 1, 0x7707_3096), Weight(c, 2, 0xee0e_612c)), Xor(Weight(c, 4, 0x076d_c419), Weight(c, 8, 0x0edb_8832)));
    var w16, w32 := Weight(c, 16, 0x1db7_1064), Weight(c, 32, 0x3b6e_20c8);
    var top := Xor(Weight(c, 64, 0x76dc_4190), Weight(c, 128, 0xedb8_8320));
    XorAssociates(low, w16, Xor(w32, top));
    XorAssociates(w16, w32, top);
  }

  /** The eight turns of the single bits: from 128 down each value is the one before, turned once more. */
  lemma {:induction false} PowersTurned()
    ensures Shifts(1, 8) == 0x7707_3096
    ensures Shifts(2, 8) == 0xee0e_612c
    ensures Shifts(4, 8) == 0x076d_c419
    ensures Shifts(8, 8) == 0x0edb_8832
    ensures Shifts(16, 8) == 0x1db7_1064
    ensures Shifts(32, 8) == 0x3b6e_20c8
    ensures Shifts(64, 8) == 0x76dc_4190
    ensures Shifts(128, 8) == 0xedb8_8320
  {
    assert Shift(2) == 1 && Shift(4) == 2 && Shift(8) == 4 && Shift(16) == 8;
    assert Shift(32) == 16 && Shift(64) == 32 && Shift(128) == 64;
    assert Shift(1) == 0xedb8_8320 && Shift(0xedb8_8320) == 0x76dc_4190 && Shift(0x76dc_4190) == 0x3b6e_20c8;
    assert Shift(0x3b6e_20c8) == 0x1db7_1064 && Shift(0x1db7_1064) == 0x0edb_8832 && Shift(0x0edb_8832) == 0x076d_c419;
    assert Shift(0x076d_c419) == 0xee0e_612c && Shift(0xee0e_612c) == 0x7707_3096;
    hide Shift;
    assert Shifts(1, 8) == Shifts(0xedb8_8320, 7) == Shifts(0x76dc_4190, 6) == Shifts(0x3b6e_20c8, 5) == Shifts(0x1db7_1064, 4);
    assert Shifts(0x1db7_1064, 4) == Shifts(0x0edb_8832, 3) == Shifts(0x076d_c419, 2) == Shifts(0xee0e_612c, 1) == Shifts(0x7707_3096, 0);
    assert Shifts(2, 8) == Shifts(1, 7) == Shifts(0xedb8_8320, 6) == Shifts(0x76dc_4190, 5) == Shifts(0x3b6e_20c8, 4);
    assert Shifts(0x3b6e_20c8, 4) == Shifts(0x1db7_1064, 3) == Shifts(0x0edb_8832, 2) == Shifts(0x076d_c419, 1) == Shifts(0xee0e_612c, 0);
    assert Shifts(4, 8) == Shifts(2, 7) == Shifts(1, 6) == Shifts(0xedb8_8320, 5) == Shifts(0x76dc_4190, 4);
    assert Shifts(0x76dc_4190, 4) == Shifts(0x3b6e_20c8, 3) == Shifts(0x1db7_1064, 2) == Shifts(0x0edb_8832, 1) == Shifts(0x076d_c419, 0);
    assert Shifts(8, 8) == Shifts(4, 7) == Shifts(2, 6) == Shifts(1, 5) == Shifts(0xedb8_8320, 4);
    assert Shifts(0xedb8_8320, 4) == Shifts(0x76dc_4190, 3) == Shifts(0x3b6e_20c8, 2) == Shifts(0x1db7_1064, 1) == Shifts(0x0edb_8832, 0);
    assert Shifts(16, 8) == Shifts(8, 7) == Shifts(4, 6) == Shifts(2, 5) == Shifts(1, 4);
    assert Shifts(1, 4) == Shifts(0xedb8_8320, 3) == Shifts(0x76dc_4190, 2) == Shifts(0x3b6e_20c8, 1) == Shifts(0x1db7_1064, 0);
    assert Shifts(32, 8) == Shifts(16, 7) == Shifts(8, 6) == Shifts(4, 5) == Shifts(2, 4);
    assert Shifts(2, 4) == Shifts(1, 3) == Shifts(0xedb8_8320, 2) == Shifts(0x76dc_4190, 1) == Shifts(0x3b6e_20c8, 0);
    assert Shifts(64, 8) == Shifts(32, 7) == Shifts(16, 6) == Shifts(8, 5) == Shifts(4, 4);
    assert Shifts(4, 4) == Shifts(2, 3) == Shifts(1, 2) == Shifts(0xedb8_8320, 1) == Shifts(0x76dc_4190, 0);
    assert Shifts(128, 8) == Shifts(64, 7) == Shifts(32, 6) == Shifts(16, 5) == Shifts(8, 4);
    assert Shifts(8, 4) == Shifts(4, 3) == Shifts(2, 2) == Shifts(1, 1) == Shifts(0xedb8_8320, 0);
  }

  lemma {:induction false} ShiftsOfWeight(c: byte, bit: byte, w: word, t: word)
    requires Shifts(w, 8) == t
    ensures Shifts(Weight(c, bit, w), 8) == Weight(c, bit, t)
  {
    hide Shift;
    ShiftsOfZero(8);
  }

  lemma {:induction false} ShiftsOfZero(n: nat)
    ensures Shifts(0, n) == 0
    decreases n
  {
    hide Shift;
    if n > 0 {
      ShiftOfZero();
      ShiftsOfZero(n - 1);
    }
  }

  lemma {:induction false} ShiftsOfFour(a: word, b: word, c: word, d: word, n: nat)
    ensures Shifts(Xor(Xor(a, b), Xor(c, d)), n) ==
      Xor(Xor(Shifts(a, n), Shifts(b, n)), Xor(Shifts(c, n), Shifts(d, n)))
  {
    hide Xor, Shifts;
    ShiftsOfXor(Xor(a, b), Xor(c, d), n);
    ShiftsOfXor(a, b, n);
    ShiftsOfXor(c, d, n);
  }

  /** Every entry of the table is its index after eight turns. */
  lemma {:induction false} TableIsShifts(c: byte)
    ensures Table(c) == Shifts(c as word, 8)
  {
    hide Xor, Shifts, Weight, Table;
    ByteOfWeights(c);
    TableOfWeights(c);
    PowersTurned();
    ShiftsOfWeight(c, 1, 1, 0x7707_3096);
    ShiftsOfWeight(c, 2, 2, 0xee0e_612c);
    ShiftsOfWeight(c, 4, 4, 0x076d_c419);
    ShiftsOfWeight(c, 8, 8, 0x0edb_8832);
    ShiftsOfWeight(c, 16, 16, 0x1db7_1064);
    ShiftsOfWeight(c, 32, 32, 0x3b6e_20c8);
    ShiftsOfWeight(c, 64, 64, 0x76dc_4190);
    ShiftsOfWeight(c, 128, 128, 0xedb8_8320);
    var low := Xor(Xor(Weight(c, 1, 1), Weight(c, 2, 2)), Xor(Weight(c, 4, 4), Weight(c, 8, 8)));
    var high := Xor(Xor(Weight(c, 16, 16), Weight(c, 32, 32)), Xor(Weight(c, 64, 64), Weight(c, 128, 128)));
    ShiftsOfXor(low, high, 8);
    ShiftsOfFour(Weight(c, 1, 1), Weight(c, 2, 2), Weight(c, 4, 4), Weight(c, 8, 8), 8);
    ShiftsOfFour(Weight(c, 16, 16), Weight(c, 32, 32), Weight(c, 64, 64), Weight(c, 128, 128), 8);
  }

  /** One step by the table is eight message bits through the register. */
  lemma {:induction false} TableStepIsRegister(r: word, c: byte)
    ensures TableStep(r, c) == Register(r, Unpack(c as word, 8))
  {
    hide Xor, Shifts, Table, Halves, Pack, Unpack, LowByte, LowPart, HighPart;
    ByteFits(c);
    UnpackPacks(c as word, 8);
    FeedAtOnce(r, Unpack(c as word, 8));
    var x := Xor(r, c as word);
    Parts(x);
    ShiftsOfXor(LowPart(x), HighPart(x), 8);
    HighPartClear(x);
    ShiftsMove(HighPart(x), 8);
    EightHalves(HighPart(x));
    TableIsShifts(LowByte(x));
    HighOfXor(r, c);
  }

  lemma {:induction false} HighOfXor(r: word, c: byte)
    ensures Xor(r, c as word) >> 8 == r >> 8
  {
  }

  // ----- The checksum

  function Crc(s: seq<byte>): word {
    Register(0, Bits(s))
  }

  lemma {:induction false} BitsOfConcat(a: seq<byte>, b: seq<byte>)
    ensures Bits(a + b) == Bits(a) + Bits(b)
    decreases |a|
  {
    hide Unpack;
    if a == [] {
      assert a + b == b;
    } else {
      assert (a + b)[1..] == a[1..] + b;
      BitsOfConcat(a[1..], b);
    }
  }

  /** The table-driven loop gives the register after all bits of the buffer. */
  method crc32(s: array<byte>, len: nat) returns (crc32val: word)
    requires len <= s.Length
    ensures crc32val == Crc(s[..len])
  {
    hide TableStep, Register, Bits, Unpack;
    crc32val := 0;
    CrcOfNothing();
    var i := 0;
    while i < len
      invariant 0 <= i <= len && crc32val == Crc(s[..i])
    {
      CrcOfMore(s[..i], s[i]);
      assert s[..i + 1] == s[..i] + [s[i]];
      crc32val := TableStep(crc32val, s[i]);
      i := i + 1;
    }
  }

  lemma {:induction false} CrcOfNothing()
    ensures Crc([]) == 0
  {
  }

  lemma {:induction false} CrcOfMore(s: seq<byte>, c: byte)
    ensures Crc(s + [c]) == TableStep(Crc(s), c)
  {
    hide TableStep, Register, Unpack;
    BitsOfConcat(s, [c]);
    assert Bits([c]) == Unpack(c as word, 8) + Bits([]);
    assert Bits([c]) == Unpack(c as word, 8);
    RegisterOfConcat(0, Bits(s), Bits([c]));
    TableStepIsRegister(Crc(s), c);
  }

  // ----- Linearity

  function XorAll(a: seq<byte>, b: seq<byte>): (d: seq<byte>)
    requires |a| == |b|
    ensures |d| == |a|
  {
    seq(|a|, i requires 0 <= i < |a| => a[i] ^ b[i])
  }

  function Differ(a: seq<bool>, b: seq<bool>): (d: seq<bool>)
    requires |a| == |b|
    ensures |d| == |a|
    decreases |a|
  {
    if a == [] then [] else [a[0] != b[0]] + Differ(a[1..], b[1..])
  }

  lemma {:induction false} RegisterOfDiffer(r: word, t: word, a: seq<bool>, b: seq<bool>)
    requires |a| == |b|
    ensures Register(Xor(r, t), Differ(a, b)) == Xor(Register(r, a), Register(t, b))
    decreases |a|
  {
    hide Xor, Shift, Bit;
    if a != [] {
      var x, y := Bit(a[0]), Bit(b[0]);
      BitOfDiffer(a[0], b[0]);
      XorSwaps(r, t, x, y);
      ShiftOfXor(Xor(r, x), Xor(t, y));
      RegisterOfDiffer(Feed(r, a[0]), Feed(t, b[0]), a[1..], b[1..]);
    }
  }

  lemma {:induction false} BitOfDiffer(x: bool, y: bool)
    ensures Bit(x != y) == Xor(Bit(x), Bit(y))
  {
  }

  lemma {:induction false} UnpackOfXor(x: word, y: word, n: nat)
    ensures Unpack(Xor(x, y), n) == Differ(Unpack(x, n), Unpack(y, n))
    decreases n
  {
    hide Xor, Half, Odd;
    if n > 0 {
      HalfOfXor(x, y);
      UnpackOfXor(Half(x), Half(y), n - 1);
    }
  }

  lemma {:induction false} DifferOfConcat(a: seq<bool>, b: seq<bool>, c: seq<bool>, d: seq<bool>)
    requires |a| == |b| && |c| == |d|
    ensures Differ(a + c, b + d) == Differ(a, b) + Differ(c, d)
    decreases |a|
  {
    if a == [] {
      assert a + c == c && b + d == d;
    } else {
      assert (a + c)[1..] == a[1..] + c && (b + d)[1..] == b[1..] + d;
      DifferOfConcat(a[1..], b[1..], c, d);
    }
  }

  lemma {:induction false} WidenXor(x: byte, y: byte)
    ensures (x ^ y) as word == Xor(x as word, y as word)
  {
  }

  lemma {:induction false} BitsOfXor(a: seq<byte>, b: seq<byte>)
    requires |a| == |b|
    ensures Bits(XorAll(a, b)) == Differ(Bits(a), Bits(b))
    decreases |a|
  {
    hide Unpack, Differ;
    var d := XorAll(a, b);
    if a == [] {
      assert Differ([], []) == [] by { DifferOfNothing(); }
    } else {
      assert d[1..] == XorAll(a[1..], b[1..]);
      BitsOfXor(a[1..], b[1..]);
      WidenXor(a[0], b[0]);
      UnpackOfXor(a[0] as word, b[0] as word, 8);
      DifferOfConcat(Unpack(a[0] as word, 8), Unpack(b[0] as word, 8), Bits(a[1..]), Bits(b[1..]));
    }
  }

  lemma {:induction false} DifferOfNothing()
    ensures Differ([], []) == []
  {
  }

  /** The checksum is linear over exclusive or on buffers of equal length. */
  lemma {:induction false} CrcLinear(a: seq<byte>, b: seq<byte>)
    requires |a| == |b|
    ensures Crc(XorAll(a, b)) == Xor(Crc(a), Crc(b))
  {
    hide Register, Bits;
    BitsOfXor(a, b);
    XorUnits(0);
    RegisterOfDiffer(0, 0, Bits(a), Bits(b));
  }

  // ----- Error detection

  /** Message bits that agree but for one window of at most 32 give different registers. */
  lemma {:induction false} BurstDetected(r: word, p: seq<bool>, u: seq<bool>, v: seq<bool>, q: seq<bool>)
    requires |u| == |v| <= 32 && u != v
    ensures Register(r, p + u + q) != Register(r, p + v + q)
  {
    hide Register, Shifts, Pack, Unpack, Xor;
    var s := Register(r, p);
    RegisterOfConcat(r, p + u, q);
    RegisterOfConcat(r, p + v, q);
    RegisterOfConcat(r, p, u);
    RegisterOfConcat(r, p, v);
    if Register(r, p + u + q) == Register(r, p + v + q) {
      RegisterInjective(Register(s, u), Register(s, v), q);
      FeedAtOnce(s, u);
      FeedAtOnce(s, v);
      ShiftsInjective(Xor(s, Pack(u)), Xor(s, Pack(v)), |u|);
      XorInjective(s, Pack(u), Pack(v));
      PackFits(u);
      PackFits(v);
    }
  }

  lemma {:induction false} BitsInjective(u: seq<byte>, v: seq<byte>)
    requires |u| == |v| && Bits(u) == Bits(v)
    ensures u == v
    decreases |u|
  {
    hide Unpack, Pack, Halves;
    if u != [] {
      var a, b := Unpack(u[0] as word, 8), Unpack(v[0] as word, 8);
      assert a == (a + Bits(u[1..]))[..8] == (b + Bits(v[1..]))[..8] == b;
      assert Bits(u[1..]) == (a + Bits(u[1..]))[8..] == (b + Bits(v[1..]))[8..] == Bits(v[1..]);
      ByteFits(u[0]);
      ByteFits(v[0]);
      UnpackPacks(u[0] as word, 8);
      UnpackPacks(v[0] as word, 8);
      BitsInjective(u[1..], v[1..]);
      WidenInjective(u[0], v[0]);
    }
  }

  lemma {:induction false} WidenInjective(x: byte, y: byte)
    requires (x as word) == (y as word)
    ensures x == y
  {
  }

  /** Buffers that differ only inside a window of at most 32 consecutive bits, wherever it starts,
      never have the same checksum. */
  lemma {:induction false} CrcDetectsBurst(a: seq<byte>, b: seq<byte>, from: nat, to: nat)
    requires |a| == |b| && a != b
    requires from <= to <= |Bits(a)| && to - from <= 32
    requires Bits(a)[..from] == Bits(b)[..from] && Bits(a)[to..] == Bits(b)[to..]
    ensures Crc(a) != Crc(b)
  {
    hide Register, Bits;
    var x, y := Bits(a), Bits(b);
    if x == y {
      BitsInjective(a, b);
    }
    assert x == x[..from] + x[from..to] + x[to..] && y == x[..from] + y[from..to] + x[to..];
    BurstDetected(0, x[..from], x[from..to], y[from..to], x[to..]);
  }

  /** In whole bytes: a window of at most four. */
  lemma {:induction false} CrcDetectsFourBytes(p: seq<byte>, u: seq<byte>, v: seq<byte>, q: seq<byte>)
    requires |u| == |v| <= 4 && u != v
    ensures Crc(p + u + q) != Crc(p + v + q)
  {
    hide Register, Bits;
    BitsOfConcat(p + u, q);
    BitsOfConcat(p + v, q);
    BitsOfConcat(p, u);
    BitsOfConcat(p, v);
    if Bits(u) == Bits(v) {
      BitsInjective(u, v);
    }
    BurstDetected(0, Bits(p), Bits(u), Bits(v), Bits(q));
  }

  /** One bit more is one too many: flipping the 33 bits of the polynomial goes undetected, in any
      message and at any place. */
  lemma {:induction false} ThirtyThreeBitsMissed(r: word, p: seq<bool>, w: seq<bool>, q: seq<bool>)
    requires |w| == 33
    ensures var d := [true] + Unpack(POLYNOMIAL, 32);
      Differ(w, d) != w && Register(r, p + Differ(w, d) + q) == Register(r, p + w + q)
  {
    hide Unpack, Pack, Xor, Halves, Shifts;
    var d := [true] + Unpack(POLYNOMIAL, 32);
    var s := Register(r, p);
    RegisterOfConcat(r, p + Differ(w, d), q);
    RegisterOfConcat(r, p + w, q);
    RegisterOfConcat(r, p, Differ(w, d));
    RegisterOfConcat(r, p, w);
    RegisterOfDiffer(s, 0, w, d);
    XorUnits(s);
    XorUnits(Register(s, w));
    assert Differ(w, d)[0] != w[0];
    PolynomialCancels();
  }

  /** Those 33 bits, from the lowest of a byte on. */
  const MISSED: seq<byte> := [0x41, 0x06, 0x71, 0xdb, 0x01]

  /** So in every buffer, at every place, there is a change of five bytes that the checksum misses. */
  lemma {:induction false} FiveBytesMissed(p: seq<byte>, w: seq<byte>, q: seq<byte>)
    requires |w| == 5
    ensures XorAll(w, MISSED) != w && Crc(p + XorAll(w, MISSED) + q) == Crc(p + w + q)
  {
    hide Register, Bits, Differ, Xor, Crc;
    var v := XorAll(w, MISSED);
    FlipOne(w[0]);
    assert v[0] == w[0] ^ 0x41;
    CrcInThree(p, v, q);
    CrcInThree(p, w, q);
    BitsOfXor(w, MISSED);
    MissedCancels();
    var r := Register(0, Bits(p));
    RegisterOfDiffer(r, 0, Bits(w), Bits(MISSED));
    XorUnits(r);
    XorUnits(Register(r, Bits(w)));
  }

  lemma {:induction false} CrcInThree(p: seq<byte>, w: seq<byte>, q: seq<byte>)
    ensures Crc(p + w + q) == Register(Register(Register(0, Bits(p)), Bits(w)), Bits(q))
  {
    hide Register, Bits;
    BitsOfConcat(p + w, q);
    BitsOfConcat(p, w);
    RegisterOfConcat(0, Bits(p) + Bits(w), Bits(q));
    RegisterOfConcat(0, Bits(p), Bits(w));
  }

  lemma {:induction false} FlipOne(x: byte)
    ensures x ^ 0x41 != x
  {
  }

  lemma {:induction false} MissedCancels()
    ensures Register(0, Bits(MISSED)) == 0
  {
    hide Register, Bits, TableStep;
    MissedSteps();
    CrcOfNothing();
    var s1: seq<byte> := [] + [0x41];
    var s2, s3, s4 := s1 + [0x06], s1 + [0x06] + [0x71], s1 + [0x06] + [0x71] + [0xdb];
    CrcOfMore([], 0x41);
    CrcOfMore(s1, 0x06);
    CrcOfMore(s2, 0x71);
    CrcOfMore(s3, 0xdb);
    CrcOfMore(s4, 0x01);
    assert s4 + [0x01] == MISSED;
    assert Crc(MISSED) == Register(0, Bits(MISSED));
  }

  lemma {:induction false} MissedSteps()
    ensures TableStep(0, 0x41) == 0x01db_7106
    ensures TableStep(0x01db_7106, 0x06) == 0x0001_db71
    ensures TableStep(0x0001_db71, 0x71) == 0x01db
    ensures TableStep(0x01db, 0xdb) == 1
    ensures TableStep(1, 1) == 0
  {
  }

  lemma {:induction false} PolynomialCancels()
    ensures Register(0, [true] + Unpack(POLYNOMIAL, 32)) == 0
  {
    hide Unpack, Pack, Xor, Halves, Shifts, Feed;
    var d := [true] + Unpack(POLYNOMIAL, 32);
    FirstBit();
    assert d[1..] == Unpack(POLYNOMIAL, 32);
    HalvesToNothing(POLYNOMIAL);
    UnpackPacks(POLYNOMIAL, 32);
    FeedAtOnce(POLYNOMIAL, Unpack(POLYNOMIAL, 32));
    XorUnits(POLYNOMIAL);
    ShiftsOfZero(32);
  }

  lemma {:induction false} FirstBit()
    ensures Feed(0, true) == POLYNOMIAL && Feed(0, false) == 0
  {
  }

  lemma {:induction false} HalvesToNothing(x: word)
    ensures Halves(x, 32) == 0
  {
    hide Halves;
    HalvesSplit(x, 8, 24);
    HalvesSplit(x >> 8, 8, 16);
    HalvesSplit(x >> 16, 8, 8);
    EightHalves(x);
    EightHalves(x >> 8);
    EightHalves(x >> 16);
    EightHalves(x >> 24);
    DownBytes(x);
  }

  lemma {:induction false} DownBytes(x: word)
    ensures (x >> 8) >> 8 == x >> 16 && (x >> 16) >> 8 == x >> 24 && (x >> 24) >> 8 == 0
  {
  }
}
