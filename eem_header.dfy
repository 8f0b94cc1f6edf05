/** The EEM packet header (`struct cdc_eem_packet_header`): a little-endian 16-bit word holding the
    length in bits 0-13, bmCRC in bit 14 and bmType in bit 15, as in section 5.1 of the USB CDC
    Subclass Specification for Ethernet Emulation Model Devices, rev. 1.0. The C code declares it
    as a bit-field struct; here the layout is written out as division and remainder by powers of
    two. */
module EemHeader {
  import opened UsbTypes

  /** `sizeof(struct cdc_eem_packet_header)` */
  const HeaderSize: nat := 2

  /** The value range of the 14-bit `length` field. */
  type Length14 = x: int | 0 <= x < 0x4000

  datatype Header = Header(length: Length14, bmCRC: bool, bmType: bool)

  /** A flag as the value of its one-bit field. */
  function Bit(b: bool): int
  {
    if b then 1 else 0
  }

  /** Packs the three fields into the header word: length | bmCRC << 14 | bmType << 15. */
  function Encode(h: Header): (w: Word)
    ensures w < 0x4000 <==> !h.bmCRC && !h.bmType
  {
    h.length + Bit(h.bmCRC) * 0x4000 + Bit(h.bmType) * 0x8000
  }

  /** Unpacks the header word: length = w & 0x3FFF, bmCRC = (w >> 14) & 1, bmType = (w >> 15) & 1. */
  function Decode(w: Word): (h: Header)
    ensures Encode(h) == w
  {
    Header(w % 0x4000, w / 0x4000 % 2 == 1, w / 0x8000 % 2 == 1)
  }

  /** Every header survives encoding: decoding is a left inverse of encoding. */
  lemma {:induction false} DecodeEncode(h: Header)
    ensures Decode(Encode(h)) == h
  {
  }

  /** The byte at the lower address of a little-endian word (w & 0xFF). */
  function LowByte(w: Word): Byte
  {
    w % 0x100
  }

  /** The byte at the higher address of a little-endian word (w >> 8). */
  function HighByte(w: Word): Byte
  {
    w / 0x100
  }

  /** The little-endian word stored in two consecutive bytes. */
  function WordOf(b0: Byte, b1: Byte): (w: Word)
    ensures LowByte(w) == b0 && HighByte(w) == b1
  {
    b0 + b1 * 0x100
  }

  /** Reading the header through a pointer to the first two bytes of a buffer. */
  function HeaderAt(b0: Byte, b1: Byte): (h: Header)
    ensures h.length == b0 + (b1 % 0x40) * 0x100
    ensures h.bmCRC <==> b1 / 0x40 % 2 == 1
    ensures h.bmType <==> b1 >= 0x80
  {
    var w := WordOf(b0, b1);
    var hi, lo := b1 / 0x40, b1 % 0x40;
    assert w == hi * 0x4000 + (b0 + lo * 0x100);
    assert w / 0x4000 == hi && w % 0x4000 == b0 + lo * 0x100;
    Decode(w)
  }

  /** The two bytes a header occupies on the wire, lower address first. */
  function HeaderBytes(h: Header): (bs: seq<Byte>)
    ensures |bs| == HeaderSize
  {
    var w := Encode(h);
    [LowByte(w), HighByte(w)]
  }

  /** Reading back the two bytes of a stored header gives the header. */
  lemma {:induction false} HeaderBytesRoundTrip(h: Header)
    ensures var bs := HeaderBytes(h); HeaderAt(bs[0], bs[1]) == h
  {
    var w := Encode(h);
    assert WordOf(LowByte(w), HighByte(w)) == w;
  }

  /** The header of an EEM data packet with a sentinel CRC: its bytes are the length, little-endian,
      with the two flag bits of the second byte clear. */
  lemma {:induction false} DataHeaderBytes(n: Length14)
    ensures var bs := HeaderBytes(Header(n, false, false));
      bs[0] == n % 0x100 && bs[1] == n / 0x100 && bs[1] < 0x40
  {
  }
}
