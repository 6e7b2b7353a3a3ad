/**
 * Byte order of 32-bit words: the network (big-endian) encoding used on the
 * wire, the way a host lays a word out in memory, and the C library's
 * ntohl/htonl conversions between the two.
 */
module ByteOrder {

  /** An octet. */
  newtype byte = x: int | 0 <= x < 0x100

  /** A `uint32_t`. */
  newtype u32 = x: int | 0 <= x < 0x1_0000_0000

  /** The byte order of the machine the responder runs on. */
  datatype Endianness = LittleEndian | BigEndian

  /** The four bytes of `x` in network order, most significant first. */
  function EncodeBE(x: u32): (b: seq<byte>)
    ensures |b| == 4
  {
    [(x / 0x100_0000) as byte, (x / 0x1_0000 % 0x100) as byte, (x / 0x100 % 0x100) as byte, (x % 0x100) as byte]
  }

  /** The value of four bytes read in network order. */
  function DecodeBE(b: seq<byte>): u32
    requires |b| == 4
  {
    (b[0] as int * 0x100_0000 + b[1] as int * 0x1_0000 + b[2] as int * 0x100 + b[3] as int) as u32
  }

  /** The four bytes of `x` in little-endian order, least significant first. */
  function EncodeLE(x: u32): (b: seq<byte>)
    ensures |b| == 4
  {
    [(x % 0x100) as byte, (x / 0x100 % 0x100) as byte, (x / 0x1_0000 % 0x100) as byte, (x / 0x100_0000) as byte]
  }

  /** The value of four bytes read in little-endian order. */
  function DecodeLE(b: seq<byte>): u32
    requires |b| == 4
  {
    (b[3] as int * 0x100_0000 + b[2] as int * 0x1_0000 + b[1] as int * 0x100 + b[0] as int) as u32
  }

  /** How a `uint32_t` variable holding `x` is laid out in the host's memory. */
  function HostBytes(host: Endianness, x: u32): (b: seq<byte>)
    ensures |b| == 4
  {
    if host == BigEndian then EncodeBE(x) else EncodeLE(x)
  }

  /** The value a `uint32_t` variable holds when its memory contains `b`. */
  function HostValue(host: Endianness, b: seq<byte>): u32
    requires |b| == 4
  {
    if host == BigEndian then DecodeBE(b) else DecodeLE(b)
  }

  /** Reverses the order of the four bytes of a word. */
  function ByteSwap(x: u32): u32 {
    DecodeBE(EncodeLE(x))
  }

  /** `ntohl`: network to host order; a byte swap on a little-endian host, the identity otherwise. */
  function Ntohl(host: Endianness, x: u32): u32 {
    if host == LittleEndian then ByteSwap(x) else x
  }

  /** `htonl`: host to network order; the same permutation as `ntohl`. */
  function Htonl(host: Endianness, x: u32): u32 {
    Ntohl(host, x)
  }

  /** A word is the sum of its four base-256 digits. */
  lemma Digits(x: u32)
    ensures x as int == (x / 0x100_0000) as int * 0x100_0000 + (x / 0x1_0000 % 0x100) as int * 0x1_0000
                        + (x / 0x100 % 0x100) as int * 0x100 + (x % 0x100) as int
  {
    var n := x as int;
    var n1 := n / 0x100;
    var n2 := n1 / 0x100;
    var n3 := n2 / 0x100;
    assert n == n1 * 0x100 + n % 0x100;
    assert n1 == n2 * 0x100 + n1 % 0x100;
    assert n2 == n3 * 0x100 + n2 % 0x100;
    assert n / 0x1_0000 == n2;
    assert n / 0x100_0000 == n3;
  }

  /** The base-256 digits of a sum of four digits are those digits. */
  lemma FromDigits(d3: byte, d2: byte, d1: byte, d0: byte)
    ensures var n := d3 as int * 0x100_0000 + d2 as int * 0x1_0000 + d1 as int * 0x100 + d0 as int;
            && n / 0x100_0000 == d3 as int && n / 0x1_0000 % 0x100 == d2 as int
            && n / 0x100 % 0x100 == d1 as int && n % 0x100 == d0 as int
  {
    var n := d3 as int * 0x100_0000 + d2 as int * 0x1_0000 + d1 as int * 0x100 + d0 as int;
    assert n / 0x100 == d3 as int * 0x1_0000 + d2 as int * 0x100 + d1 as int;
    assert n / 0x1_0000 == d3 as int * 0x100 + d2 as int;
  }

  /** Decoding what was encoded gives the word back. */
  lemma DecodeEncodeBE(x: u32)
    ensures DecodeBE(EncodeBE(x)) == x
  {
    Digits(x);
  }

  /** Encoding a decoded word gives the four bytes back: the encoding is a bijection. */
  lemma EncodeDecodeBE(b: seq<byte>)
    requires |b| == 4
    ensures EncodeBE(DecodeBE(b)) == b
  {
    FromDigits(b[0], b[1], b[2], b[3]);
  }

  /** The little-endian layout of a word is its network-order layout reversed. */
  lemma EncodeLEReversesBE(x: u32)
    ensures var be := EncodeBE(x); EncodeLE(x) == [be[3], be[2], be[1], be[0]]
  {
  }

  /** On a little-endian host, swapping a word's bytes gives the word whose memory holds its network-order bytes. */
  lemma ByteSwapLayout(x: u32)
    ensures EncodeLE(ByteSwap(x)) == EncodeBE(x)
  {
    var le := EncodeLE(x);
    EncodeDecodeBE(le);
    EncodeLEReversesBE(DecodeBE(le));
  }

  /** Two applications of `ntohl` (or `htonl`) cancel, on either kind of host. */
  lemma NtohlInvolution(host: Endianness, x: u32)
    ensures Ntohl(host, Ntohl(host, x)) == x
    ensures Htonl(host, Htonl(host, x)) == x
  {
    if host == LittleEndian {
      ByteSwapLayout(x);
      DecodeEncodeBE(x);
    }
  }

  /**
   * Reading four bytes into a `uint32_t` and applying `ntohl` yields their
   * network-order value whatever the host's byte order.
   */
  lemma NtohlOfLoadedWord(host: Endianness, b: seq<byte>)
    requires |b| == 4
    ensures Ntohl(host, HostValue(host, b)) == DecodeBE(b)
  {
    if host == LittleEndian {
      FromDigits(b[3], b[2], b[1], b[0]);
      assert EncodeLE(DecodeLE(b)) == b;
    }
  }

  /**
   * Applying `htonl` to a word and writing out the memory of the result emits
   * the network-order bytes of the word whatever the host's byte order.
   */
  lemma StoredHtonlWord(host: Endianness, x: u32)
    ensures HostBytes(host, Htonl(host, x)) == EncodeBE(x)
  {
    if host == LittleEndian {
      ByteSwapLayout(x);
    }
  }
}
