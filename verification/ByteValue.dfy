/** Bytes as numbers, bit by bit. */
module ByteValue {

  /** The bit of this weight. */
  predicate Bit(n: nat, weight: nat)
    requires weight > 0
  {
    n / weight % 2 == 1
  }

  function FromBits(b7: bool, b6: bool, b5: bool, b4: bool, b3: bool, b2: bool, b1: bool, b0: bool): bv8 {
    (if b7 then 0x80 else 0) | (if b6 then 0x40 else 0) | (if b5 then 0x20 else 0) | (if b4 then 0x10 else 0)
    | (if b3 then 0x08 else 0) | (if b2 then 0x04 else 0) | (if b1 then 0x02 else 0) | (if b0 then 0x01 else 0)
  }

  function ByteOf(n: nat): bv8
    requires n < 256
  {
    var hi, lo := n / 16, n % 16;
    FromBits(Bit(hi, 8), Bit(hi, 4), Bit(hi, 2), Bit(hi, 1), Bit(lo, 8), Bit(lo, 4), Bit(lo, 2), Bit(lo, 1))
  }

  function Number(b: bv8): nat {
    (if b & 0x80 != 0 then 128 else 0) + (if b & 0x40 != 0 then 64 else 0) + (if b & 0x20 != 0 then 32 else 0)
    + (if b & 0x10 != 0 then 16 else 0) + (if b & 0x08 != 0 then 8 else 0) + (if b & 0x04 != 0 then 4 else 0)
    + (if b & 0x02 != 0 then 2 else 0) + (if b & 0x01 != 0 then 1 else 0)
  }

  function Value(bit: bool, weight: nat): nat { if bit then weight else 0 }

  lemma BitsAreRead(b7: bool, b6: bool, b5: bool, b4: bool, b3: bool, b2: bool, b1: bool, b0: bool)
    ensures Number(FromBits(b7, b6, b5, b4, b3, b2, b1, b0))
            == Value(b7, 128) + Value(b6, 64) + Value(b5, 32) + Value(b4, 16)
               + Value(b3, 8) + Value(b2, 4) + Value(b1, 2) + Value(b0, 1)
  {
  }

  lemma HalfByte(n: nat)
    requires n < 16
    ensures n == Value(Bit(n, 8), 8) + Value(Bit(n, 4), 4) + Value(Bit(n, 2), 2) + Value(Bit(n, 1), 1)
  {
  }

  lemma ByteIsRead(n: nat)
    requires n < 256
    ensures Number(ByteOf(n)) == n
  {
    hide Number, FromBits, Bit;
    var hi, lo := n / 16, n % 16;
    HalfByte(hi);
    HalfByte(lo);
    BitsAreRead(Bit(hi, 8), Bit(hi, 4), Bit(hi, 2), Bit(hi, 1), Bit(lo, 8), Bit(lo, 4), Bit(lo, 2), Bit(lo, 1));
  }
}
