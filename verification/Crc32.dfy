/** The CRC-32 of IEEE 802.3, section 3.2.9, once bit by bit and once as the code base computes it, half a byte
    at a time from a table. Proofs that need the bits are kept apart from those that do not, which hide the
    operators on words. */
module Crc32 {

  type Byte = bv8

  function Xor(a: bv32, b: bv32): bv32 { a ^ b }

  function Not(a: bv32): bv32 { !a }

  function Shift4(a: bv32): bv32 { a >> 4 }

  function Low4(a: bv32): bv32 { a & 0xF }

  function Wide(b: Byte): bv32 { b as bv32 }

  /** The generator polynomial, reflected. */
  const POLYNOMIAL: bv32 := 0xEDB8_8320

  /** One step of the division: shift out a bit and subtract the polynomial if it was set. */
  function BitStep(x: bv32): bv32 {
    if x & 1 == 1 then (x >> 1) ^ POLYNOMIAL else x >> 1
  }

  function FourBits(x: bv32): bv32 { BitStep(BitStep(BitStep(BitStep(x)))) }

  function DivideByte(x: bv32, b: Byte): bv32 { FourBits(FourBits(Xor(x, Wide(b)))) }

  /** Division of a byte string, first byte first, starting from the remainder `x`. */
  function Divide(x: bv32, data: seq<Byte>): bv32 {
    if data == [] then x else DivideByte(Divide(x, data[..|data| - 1]), data[|data| - 1])
  }

  /** The CRC of `data` appended to something whose CRC is `crc`. */
  function Crc(crc: bv32, data: seq<Byte>): bv32 { Not(Divide(Not(crc), data)) }

  const TABLE: seq<bv32> := [
    0x0000_0000, 0x1db7_1064, 0x3b6e_20c8, 0x26d9_30ac, 0x76dc_4190, 0x6b6b_51f4, 0x4db2_6158, 0x5005_713c,
    0xedb8_8320, 0xf00f_9344, 0xd6d6_a3e8, 0xcb61_b38c, 0x9b64_c2b0, 0x86d3_d2d4, 0xa00a_e278, 0xbdbd_f21c
  ]

  /** Look-up in the table by the lower half of a byte. */
  function Entry(x: bv32): bv32 {
    var n := Low4(x);
    if n == 0 then 0x0000_0000 else if n == 1 then 0x1db7_1064
    else if n == 2 then 0x3b6e_20c8 else if n == 3 then 0x26d9_30ac
    else if n == 4 then 0x76dc_4190 else if n == 5 then 0x6b6b_51f4
    else if n == 6 then 0x4db2_6158 else if n == 7 then 0x5005_713c
    else if n == 8 then 0xedb8_8320 else if n == 9 then 0xf00f_9344
    else if n == 10 then 0xd6d6_a3e8 else if n == 11 then 0xcb61_b38c
    else if n == 12 then 0x9b64_c2b0 else if n == 13 then 0x86d3_d2d4
    else if n == 14 then 0xa00a_e278 else 0xbdbd_f21c
  }

  // ----- facts about bits

  /** Every table entry is the remainder of its half byte. */
  lemma TableDivides(x: bv32)
    ensures FourBits(x) == Xor(Shift4(x), Entry(x))
  {
  }

  lemma Rearranged(x: bv32, b: Byte, entry: bv32)
    ensures Xor(Shift4(Xor(x, Wide(b))), entry) == Xor(Xor(Shift4(x), entry), Shift4(Wide(b)))
  {
    ShiftOfXor(x, Wide(b));
    XorSwaps(Shift4(x), Shift4(Wide(b)), entry);
    hide Xor, Shift4, Wide;
  }

  lemma ShiftOfXor(x: bv32, y: bv32)
    ensures Shift4(Xor(x, y)) == Xor(Shift4(x), Shift4(y))
  {
  }

  lemma XorSwaps(x: bv32, y: bv32, z: bv32)
    ensures Xor(Xor(x, y), z) == Xor(Xor(x, z), y)
  {
    XorGroups(x, y, z);
    XorGroups(x, z, y);
    XorCommutes(y, z);
    hide Xor;
  }

  lemma XorGroups(x: bv32, y: bv32, z: bv32)
    ensures Xor(Xor(x, y), z) == Xor(x, Xor(y, z))
  {
  }

  lemma XorCommutes(x: bv32, y: bv32)
    ensures Xor(x, y) == Xor(y, x)
  {
  }

  lemma UpperHalfIsShort(x: bv32, b: Byte)
    ensures Shift4(Xor(x, Shift4(Wide(b)))) == Shift4(x)
  {
  }

  lemma NotNot(x: bv32)
    ensures Not(Not(x)) == x
  {
  }

  lemma NotIsInjective(x: bv32, y: bv32)
    requires Not(x) == Not(y)
    ensures x == y
  {
  }

  lemma BitStepIsInjective(x: bv32, y: bv32)
    requires BitStep(x) == BitStep(y)
    ensures x == y
  {
  }

  lemma XorIsInjective(x: bv32, y: bv32, b: bv32)
    requires Xor(x, b) == Xor(y, b)
    ensures x == y
  {
  }

  lemma ByteShows(x: bv32, b: Byte, c: Byte)
    requires Xor(x, Wide(b)) == Xor(x, Wide(c))
    ensures b == c
  {
  }

  /** The look-up the program makes. */
  function Look(x: bv32): bv32 { TABLE[Low4(x) as int] }

  lemma LookIsEntry(x: bv32)
    ensures Look(x) == Entry(x)
  {
    var n := Low4(x);
    assert n == 0 || n == 1 || n == 2 || n == 3 || n == 4 || n == 5 || n == 6 || n == 7
        || n == 8 || n == 9 || n == 10 || n == 11 || n == 12 || n == 13 || n == 14 || n == 15;
  }

  // ----- the fast form refines the simple one

  /** Two table steps are eight bit steps. */
  lemma HalfBytes(x: bv32, b: Byte)
    ensures var first := Xor(Shift4(x), Entry(Xor(x, Wide(b))));
            DivideByte(x, b) == Xor(Shift4(first), Entry(Xor(first, Shift4(Wide(b)))))
  {
    hide FourBits, Entry, Xor, Shift4, Wide, Low4;
    var entry := Entry(Xor(x, Wide(b)));
    var first := Xor(Shift4(x), entry);
    TableDivides(Xor(x, Wide(b)));
    Rearranged(x, b, entry);
    TableDivides(Xor(first, Shift4(Wide(b))));
    UpperHalfIsShort(first, b);
  }

  /** crc32_ieee_update: the table-driven loop computes the CRC. */
  method Crc32IeeeUpdate(crc: bv32, data: seq<Byte>) returns (r: bv32)
    ensures r == Crc(crc, data)
  {
    hide DivideByte, Entry, Look, Xor, Shift4, Wide, Low4, Not;
    var x := Not(crc);
    for i := 0 to |data|
      invariant x == Divide(Not(crc), data[..i])
    {
      assert data[..i + 1][..i] == data[..i];
      HalfBytes(x, data[i]);
      LookIsEntry(Xor(x, Wide(data[i])));
      x := Xor(Shift4(x), Look(Xor(x, Wide(data[i]))));
      LookIsEntry(Xor(x, Shift4(Wide(data[i]))));
      x := Xor(Shift4(x), Look(Xor(x, Shift4(Wide(data[i])))));
    }
    assert data[..|data|] == data;
    r := Not(x);
  }

  // ----- what the CRC is good for

  lemma {:induction false} DivideTwice(x: bv32, a: seq<Byte>, b: seq<Byte>)
    ensures Divide(Divide(x, a), b) == Divide(x, a + b)
  {
    hide DivideByte;
    if b == [] {
      assert a + b == a;
    } else {
      DivideTwice(x, a, b[..|b| - 1]);
      assert (a + b)[..|a + b| - 1] == a + b[..|b| - 1];
    }
  }

  /** Chunks may be added one after the other. */
  lemma CrcOfChunks(crc: bv32, a: seq<Byte>, b: seq<Byte>)
    ensures Crc(Crc(crc, a), b) == Crc(crc, a + b)
  {
    hide Divide, Not;
    NotNot(Divide(Not(crc), a));
    DivideTwice(Not(crc), a, b);
  }

  lemma FourBitsIsInjective(x: bv32, y: bv32)
    requires FourBits(x) == FourBits(y)
    ensures x == y
  {
    hide BitStep;
    BitStepIsInjective(BitStep(BitStep(BitStep(x))), BitStep(BitStep(BitStep(y))));
    BitStepIsInjective(BitStep(BitStep(x)), BitStep(BitStep(y)));
    BitStepIsInjective(BitStep(x), BitStep(y));
    BitStepIsInjective(x, y);
  }

  /** Different remainders stay different, whatever follows. */
  lemma {:induction false} DivideIsInjective(x: bv32, y: bv32, data: seq<Byte>)
    requires Divide(x, data) == Divide(y, data)
    ensures x == y
  {
    hide FourBits, Xor, Wide;
    if data != [] {
      var b := Wide(data[|data| - 1]);
      var x1, y1 := Divide(x, data[..|data| - 1]), Divide(y, data[..|data| - 1]);
      FourBitsIsInjective(FourBits(Xor(x1, b)), FourBits(Xor(y1, b)));
      FourBitsIsInjective(Xor(x1, b), Xor(y1, b));
      XorIsInjective(x1, y1, b);
      DivideIsInjective(x, y, data[..|data| - 1]);
    }
  }

  /** A single corrupted byte never goes unnoticed. */
  lemma OneWrongByteShows(crc: bv32, a: seq<Byte>, b: Byte, c: Byte, rest: seq<Byte>)
    requires Crc(crc, a + [b] + rest) == Crc(crc, a + [c] + rest)
    ensures b == c
  {
    hide FourBits, Xor, Wide, Not;
    var x := Divide(Not(crc), a);
    NotIsInjective(Divide(Not(crc), a + [b] + rest), Divide(Not(crc), a + [c] + rest));
    DivideTwice(Not(crc), a + [b], rest);
    DivideTwice(Not(crc), a + [c], rest);
    DivideTwice(Not(crc), a, [b]);
    DivideTwice(Not(crc), a, [c]);
    DivideIsInjective(Divide(x, [b]), Divide(x, [c]), rest);
    assert [b][..0] == [] == [c][..0];
    FourBitsIsInjective(FourBits(Xor(x, Wide(b))), FourBits(Xor(x, Wide(c))));
    FourBitsIsInjective(Xor(x, Wide(b)), Xor(x, Wide(c)));
    ByteShows(x, b, c);
  }

  /** So stored bytes that differ from the saved ones in exactly one place do not pass the check. */
  lemma OneWrongByteIsRejected(crc: bv32, saved: seq<Byte>, found: seq<Byte>, k: nat)
    requires |saved| == |found| && k < |saved| && saved[k] != found[k]
    requires forall i | 0 <= i < |saved| && i != k :: saved[i] == found[i]
    ensures Crc(crc, saved) != Crc(crc, found)
  {
    hide Crc;
    if Crc(crc, saved) == Crc(crc, found) {
      assert saved == saved[..k] + [saved[k]] + saved[k + 1..];
      assert found == saved[..k] + [found[k]] + saved[k + 1..];
      OneWrongByteShows(crc, saved[..k], saved[k], found[k], saved[k + 1..]);
    }
  }

  // ----- the residue

  function Part(x: bv32, shift: nat): Byte
    requires shift <= 24
  {
    ((x >> shift) & 0xFF) as bv8
  }

  /** Dividing what the remainder x complements to, byte by byte, shifts x out and leaves something that does not depend
      on it. */
  lemma FirstByteOut(x: bv32)
    ensures DivideByte(x, Part(Not(x), 0)) == Xor(x >> 8, 0x2d02_ef8d)
  {
  }

  lemma SecondByteOut(x: bv32)
    ensures DivideByte(Xor(x >> 8, 0x2d02_ef8d), Part(Not(x), 8)) == Xor(x >> 16, 0xbe26_12ff)
  {
  }

  lemma ThirdByteOut(x: bv32)
    ensures DivideByte(Xor(x >> 16, 0xbe26_12ff), Part(Not(x), 16)) == Xor(x >> 24, 0x00be_2612)
  {
  }

  lemma FourthByteOut(x: bv32)
    ensures DivideByte(Xor(x >> 24, 0x00be_2612), Part(Not(x), 24)) == 0xdebb_20e3
  {
  }

  /** A CRC as it is stored, low byte first. */
  function LittleEndian(crc: bv32): seq<Byte> { [Part(crc, 0), Part(crc, 8), Part(crc, 16), Part(crc, 24)] }

  lemma DivideOne(x: bv32, data: seq<Byte>, b: Byte)
    ensures Divide(x, data + [b]) == DivideByte(Divide(x, data), b)
  {
    hide DivideByte;
    assert (data + [b])[..|data|] == data;
  }

  lemma ComplementDivides(x: bv32)
    ensures Divide(x, LittleEndian(Not(x))) == 0xdebb_20e3
  {
    hide DivideByte, Divide, Not, Xor, Part;
    FirstByteOut(x);
    SecondByteOut(x);
    ThirdByteOut(x);
    FourthByteOut(x);
    var c := Not(x);
    var b0, b1, b2, b3 := Part(c, 0), Part(c, 8), Part(c, 16), Part(c, 24);
    DivideNothing(x);
    assert [] + [b0] == [b0] && [b0] + [b1] == [b0, b1] && [b0, b1] + [b2] == [b0, b1, b2];
    assert [b0, b1, b2] + [b3] == LittleEndian(c);
    DivideOne(x, [], b0);
    DivideOne(x, [b0], b1);
    DivideOne(x, [b0, b1], b2);
    DivideOne(x, [b0, b1, b2], b3);
  }

  lemma DivideNothing(x: bv32)
    ensures Divide(x, []) == x
  {
  }

  /** The residue of the CRC-32 of IEEE 802.3: data followed by their CRC, low byte first, always have the same CRC. */
  lemma Residue(data: seq<Byte>)
    ensures Crc(0, data + LittleEndian(Crc(0, data))) == 0x2144_df1c
  {
    var x := Divide(Not(0), data);
    assert Not(0xdebb_20e3) == 0x2144_df1c;
    hide Divide, Not, LittleEndian;
    DivideTwice(Not(0), data, LittleEndian(Not(x)));
    ComplementDivides(x);
  }

  /** Without the two inversions this would be 0, and leading zero bytes would go unnoticed. */
  lemma CrcOfZero()
    ensures Crc(0, [0]) == 0xd202_ef8d
  {
    assert [0 as Byte][..0] == [];
  }
}
