/**
  The surrogate-key codec of the identity-placeholder strategy: a Java `int`
  as four big-endian two's-complement bytes (`intToByteArray`) and back
  (`byteArrayToInt`). The byte layout is the one `DataOutput.writeInt` uses.
 */
module IntCodec {
  import opened Wrappers
  import opened JavaInt

  /** What `byteArrayToInt` throws when handed fewer than four bytes. */
  datatype CodecError = IndexOutOfBounds(index: nat)

  /** `b & 0xFF` with `b` a Java `byte`: the byte's bits as a value 0..255. */
  function Octet(b: Int8): (r: int)
    ensures 0 <= r < TWO_8
    ensures r == b as int || r == b as int + TWO_8
  {
    LowOctet(b as int)
  }

  /** The unsigned number whose big-endian base-256 digits are the first four
      bytes of `b`: the reference reading of a 4-byte key. */
  function BigEndian(b: seq<Int8>): (r: int)
    requires |b| >= 4
    ensures 0 <= r < TWO_32
  {
    ((Octet(b[0]) * TWO_8 + Octet(b[1])) * TWO_8 + Octet(b[2])) * TWO_8 + Octet(b[3])
  }

  /** `intToByteArray(value)`: four bytes, each the low eight bits of the
      value's unsigned 32-bit pattern after an unsigned right shift by 24, 16,
      8 and 0 bits, narrowed to a Java `byte`. */
  function IntToByteArray(value: Int32): (r: seq<Int8>)
    ensures |r| == 4
  {
    var u := Unsigned(value);
    [ ToByte(LowOctet(u / 0x100_0000)),
      ToByte(LowOctet(u / 0x1_0000)),
      ToByte(LowOctet(u / 0x100)),
      ToByte(LowOctet(value as int)) ]
  }

  /** The encoding is big-endian: its bytes, most significant first, are the
      base-256 digits of the value's 32 bits. */
  lemma IntToByteArrayIsBigEndian(value: Int32)
    ensures BigEndian(IntToByteArray(value)) == Unsigned(value)
  {
    var u := Unsigned(value);
    OctetOfByte(u / 0x100_0000);
    OctetOfByte(u / 0x1_0000);
    OctetOfByte(u / 0x100);
    OctetOfByte(value as int);
    SameLowOctet(value);
    EncodeIsBigEndian(u);
  }

  /** Narrowing the low eight bits of `x` to a byte and reading that byte back
      as unsigned gives the same eight bits. */
  lemma OctetOfByte(x: int)
    ensures Octet(ToByte(LowOctet(x))) == LowOctet(x)
  {
  }

  /** An `int` and its unsigned reading share their low eight bits. */
  lemma SameLowOctet(v: Int32)
    ensures LowOctet(v as int) == LowOctet(Unsigned(v))
  {
    if v < 0 {
      var q := (v as int) / TWO_8;
      assert v as int == q * TWO_8 + LowOctet(v as int);
      assert Unsigned(v) == (q + 0x100_0000) * TWO_8 + LowOctet(v as int);
    }
  }

  /** `byteArrayToInt(b)`: the first byte sign-extended and shifted left 24
      bits, plus the next three bytes read as unsigned and shifted left 16, 8
      and 0 bits, each shift and addition wrapping to 32 bits. Bytes past the
      fourth are ignored; a shorter array throws at the first missing index. */
  function ByteArrayToInt(b: seq<Int8>): (r: Result<Int32, CodecError>)
    ensures r.Failure? <==> |b| < 4
    ensures r.Failure? ==> r.error == IndexOutOfBounds(|b|)
    ensures r.Success? ==> Unsigned(r.value) == BigEndian(b)
  {
    if |b| < 4 then
      Failure(IndexOutOfBounds(|b|))
    else
      var hi := Wrap(b[0] as int * 0x100_0000);
      var sum := Wrap(Wrap(Wrap(hi as int + Wrap(Octet(b[1]) * 0x1_0000) as int) as int
                           + Wrap(Octet(b[2]) * 0x100) as int) as int
                      + Octet(b[3]));
      DecodeIsBigEndian(b, sum);
      Success(sum)
  }

  /** The four digits the encoder extracts recompose `u`. */
  lemma EncodeIsBigEndian(u: int)
    requires 0 <= u < TWO_32
    ensures ((LowOctet(u / 0x100_0000) * TWO_8 + LowOctet(u / 0x1_0000)) * TWO_8
              + LowOctet(u / 0x100)) * TWO_8 + LowOctet(u) == u
  {
    var q1 := u / TWO_8;
    var q2 := q1 / TWO_8;
    var q3 := q2 / TWO_8;
    assert u == q1 * TWO_8 + u % TWO_8;
    assert q1 == q2 * TWO_8 + q1 % TWO_8;
    assert q2 == q3 * TWO_8 + q2 % TWO_8;
    assert u / 0x1_0000 == q2;
    assert u / 0x100_0000 == q3;
    assert q3 < TWO_8;
  }

  /** The wrapping sum the decoder computes never actually wraps, and is the
      two's-complement reading of the big-endian digits. */
  lemma DecodeIsBigEndian(b: seq<Int8>, sum: Int32)
    requires |b| >= 4
    requires sum == Wrap(Wrap(Wrap(Wrap(b[0] as int * 0x100_0000) as int
                                   + Wrap(Octet(b[1]) * 0x1_0000) as int) as int
                              + Wrap(Octet(b[2]) * 0x100) as int) as int
                         + Octet(b[3]))
    ensures Unsigned(sum) == BigEndian(b)
  {
    var x0 := b[0] as int * 0x100_0000;
    var x1 := Octet(b[1]) * 0x1_0000;
    var x2 := Octet(b[2]) * 0x100;
    var x3 := Octet(b[3]);
    assert Wrap(x0) as int == x0;
    assert Wrap(x1) as int == x1;
    assert Wrap(x2) as int == x2;
    assert Wrap(x0 + x1) as int == x0 + x1;
    assert Wrap(x0 + x1 + x2) as int == x0 + x1 + x2;
    assert sum as int == x0 + x1 + x2 + x3;
  }

  /** Decoding an encoded key gives the key back, for every Java `int`. */
  lemma DecodeEncode(v: Int32)
    ensures ByteArrayToInt(IntToByteArray(v)) == Success(v)
  {
    IntToByteArrayIsBigEndian(v);
    var r := ByteArrayToInt(IntToByteArray(v));
    assert Unsigned(r.value) == Unsigned(v);
  }

  /** Encoding a decoded key gives back the four bytes it was read from: the
      codec is a bijection between Java `int`s and 4-byte arrays. */
  lemma EncodeDecode(b: seq<Int8>)
    requires |b| >= 4
    ensures ByteArrayToInt(b).Success?
    ensures IntToByteArray(ByteArrayToInt(b).value) == b[..4]
  {
    var e := IntToByteArray(ByteArrayToInt(b).value);
    IntToByteArrayIsBigEndian(ByteArrayToInt(b).value);
    BigEndianDigits(e, b);
  }

  /** Bytes after the fourth play no part in the decoded key. */
  lemma DecodeIgnoresTrailing(b: seq<Int8>, rest: seq<Int8>)
    requires |b| >= 4
    ensures ByteArrayToInt(b + rest) == ByteArrayToInt(b)
  {
    assert (b + rest)[..4] == b[..4];
    assert BigEndian(b + rest) == BigEndian(b);
    UnsignedInjective(ByteArrayToInt(b + rest).value, ByteArrayToInt(b).value);
  }

  /** Two 4-byte arrays with the same big-endian reading are the same bytes. */
  lemma BigEndianDigits(a: seq<Int8>, b: seq<Int8>)
    requires |a| == 4 && |b| >= 4
    requires BigEndian(a) == BigEndian(b)
    ensures a == b[..4]
  {
    var ha2 := Octet(a[0]) * TWO_8 + Octet(a[1]);
    var hb2 := Octet(b[0]) * TWO_8 + Octet(b[1]);
    var ha3 := ha2 * TWO_8 + Octet(a[2]);
    var hb3 := hb2 * TWO_8 + Octet(b[2]);
    LastDigit(ha3, Octet(a[3]), hb3, Octet(b[3]));
    LastDigit(ha2, Octet(a[2]), hb2, Octet(b[2]));
    LastDigit(Octet(a[0]), Octet(a[1]), Octet(b[0]), Octet(b[1]));
    OctetInjective(a[3], b[3]);
    OctetInjective(a[2], b[2]);
    OctetInjective(a[1], b[1]);
    OctetInjective(a[0], b[0]);
  }

  /** A base-256 number determines its last digit and the rest. */
  lemma LastDigit(h: int, d: int, h': int, d': int)
    requires 0 <= d < TWO_8 && 0 <= d' < TWO_8
    requires h * TWO_8 + d == h' * TWO_8 + d'
    ensures h == h' && d == d'
  {
  }

  lemma OctetInjective(x: Int8, y: Int8)
    requires Octet(x) == Octet(y)
    ensures x == y
  {
  }

  /** A value's encoding is the four bytes whose big-endian reading is the
      value's 32 bits. */
  lemma EncodingOf(v: Int32, b: seq<Int8>)
    requires |b| == 4
    requires BigEndian(b) == Unsigned(v)
    ensures IntToByteArray(v) == b
  {
    IntToByteArrayIsBigEndian(v);
    BigEndianDigits(IntToByteArray(v), b);
  }

  /** The encodings of the boundary values, most significant byte first. */
  lemma BoundaryEncodings()
    ensures IntToByteArray(0) == [0, 0, 0, 0]
    ensures IntToByteArray(1) == [0, 0, 0, 1]
    ensures IntToByteArray(255) == [0, 0, 0, -1]
    ensures IntToByteArray(65535) == [0, 0, -1, -1]
    ensures IntToByteArray(-1) == [-1, -1, -1, -1]
    ensures IntToByteArray(INT_MAX) == [127, -1, -1, -1]
    ensures IntToByteArray(INT_MIN) == [-128, 0, 0, 0]
  {
    EncodingOf(0, [0, 0, 0, 0]);
    EncodingOf(1, [0, 0, 0, 1]);
    EncodingOf(255, [0, 0, 0, -1]);
    EncodingOf(65535, [0, 0, -1, -1]);
    EncodingOf(-1, [-1, -1, -1, -1]);
    EncodingOf(INT_MAX, [127, -1, -1, -1]);
    EncodingOf(INT_MIN, [-128, 0, 0, 0]);
  }
}
