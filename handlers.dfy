/** The header handlers of the two frame decoders, lifted out of their
    classes as total functions of the header bytes read so far and of
    `maxmsgsize` (a negative limit means "no limit"). Each decides one of:
    wait for more header bytes, allocate a body of a given size, or reject
    the frame with an errno code. */
module Handlers {
  import opened Wire

  /** Decoder states; both revisions use the same four codes 0..3. */
  datatype DState = OneByteSizeReady | EightByteSizeReady | FlagsReady | MessageReady

  /** The Java integer behind each state constant. */
  function StateCode(s: DState): (r: int)
    ensures 0 <= r <= 3
  {
    match s
    case OneByteSizeReady => 0
    case EightByteSizeReady => 1
    case FlagsReady => 2
    case MessageReady => 3
  }

  /** Flag bits of the ZMTP/2.0 frame header. */
  const MORE_FLAG: byte := 1
  const LARGE_FLAG: byte := 2

  /** The verdict on a decoded length: allocate `size` bytes, or fail. */
  datatype LengthCheck = Accept(size: nat) | Refuse(err: ErrNo)

  /** What the ZMTP/1.0 first length byte asks for: the 8-byte escape, or a checked length. */
  datatype V1First = Escape | Length(check: LengthCheck)

  /** `V1Decoder.oneByteSizeReady`: the first byte, read as a Java (signed) byte.
      It counts the flags byte, so the body is one byte shorter. */
  function V1LengthByte(first: byte, maxmsgsize: int): (r: V1First)
    ensures r == Escape <==> first == 0xFF
    ensures r == Length(Refuse(EPROTO)) <==> first == 0
    ensures r == Length(Refuse(EMSGSIZE)) <==>
              first != 0 && first != 0xFF && maxmsgsize >= 0 && first as int - 1 > maxmsgsize
    ensures r.Length? && r.check.Accept? ==>
              r.check.size == first as int - 1 && r.check.size <= 253 &&
              (maxmsgsize < 0 || r.check.size <= maxmsgsize)
  {
    var f := SignedByte(first);
    if f == -1 then Escape
    else if f == 0 then Length(Refuse(EPROTO))
    else
      var size := if f < 0 then f + 256 else f;
      if maxmsgsize >= 0 && size - 1 > maxmsgsize then Length(Refuse(EMSGSIZE))
      else Length(Accept(size - 1))
  }

  /** `V1Decoder.eightByteSizeReady`: a signed big-endian length that again counts the flags byte. */
  function V1Length8(b: seq<byte>, maxmsgsize: int): (r: LengthCheck)
    requires |b| == 8
    ensures r == Refuse(EPROTO) <==> b[0] >= 0x80 || BeUint(b) == 0
    ensures r.Accept? <==>
              b[0] < 0x80 && 1 <= BeUint(b) <= INT32_MAX + 1 &&
              (maxmsgsize < 0 || BeUint(b) - 1 <= maxmsgsize)
    ensures r.Accept? ==> r.size == BeUint(b) - 1
    ensures r.Refuse? ==> r.err != NoError
  {
    SizeOf8(b);
    var payloadLength := GetLong(b);
    if payloadLength <= 0 then Refuse(EPROTO)
    else if maxmsgsize >= 0 && payloadLength - 1 > maxmsgsize then Refuse(EMSGSIZE)
    else if payloadLength - 1 > INT32_MAX then Refuse(EMSGSIZE)
    else Accept(payloadLength - 1)
  }

  /** `V1Decoder.flagsReady`: only the MORE bit of the flags byte is kept. */
  function V1FlagsMore(first: byte): (more: bool)
    ensures more <==> first as int % 2 == 1
  {
    HasFlag(first, MORE_FLAG)
  }

  /** `V2Decoder.flagsReady`: the MORE bit and how many length bytes follow. */
  function V2Flags(first: byte): (r: (bool, DState, nat))
    ensures r.0 <==> first as int % 2 == 1
    ensures r.1 == EightByteSizeReady <==> (first as int / 2) % 2 == 1
    ensures r.1 == (if r.2 == 8 then EightByteSizeReady else OneByteSizeReady)
    ensures r.2 == 1 || r.2 == 8
  {
    var more := HasFlag(first, MORE_FLAG);
    if HasFlag(first, LARGE_FLAG) then (more, EightByteSizeReady, 8)
    else (more, OneByteSizeReady, 1)
  }

  /** `V2Decoder.oneByteSizeReady`: an unsigned length; zero is a valid body size. */
  function V2LengthByte(b: byte, maxmsgsize: int): (r: LengthCheck)
    ensures r.Accept? <==> maxmsgsize < 0 || b as int <= maxmsgsize
    ensures r.Accept? ==> r.size == b as int
    ensures r.Refuse? ==> r.err == EMSGSIZE
  {
    var first := SignedByte(b);
    var size := if first < 0 then first + 256 else first;
    if maxmsgsize >= 0 && size > maxmsgsize then Refuse(EMSGSIZE)
    else Accept(size)
  }

  /** What `V2Decoder.eightByteSizeReady` passes on, as written: the checks
      compare the SIGNED long, and the allocator receives `(int) msgSize`. */
  datatype AllocRequest = AllocateInt(n: int) | Fail(err: ErrNo)

  function V2Length8AsWritten(b: seq<byte>, maxmsgsize: int): (r: AllocRequest)
    requires |b| == 8
    ensures r.AllocateInt? ==> INT32_MIN <= r.n <= INT32_MAX
    ensures b[0] < 0x80 ==>
              r == (if maxmsgsize >= 0 && BeUint(b) > maxmsgsize then Fail(EMSGSIZE)
                    else if BeUint(b) > INT32_MAX then Fail(EMSGSIZE)
                    else AllocateInt(BeUint(b)))
  {
    SizeOf8(b);
    var msgSize := GetLong(b);
    if maxmsgsize >= 0 && msgSize > maxmsgsize then Fail(EMSGSIZE)
    else if msgSize > INT32_MAX then Fail(EMSGSIZE)
    else AllocateInt(ToInt32(msgSize))
  }

  /** A length with the top bit set gets through both checks: the allocator is
      asked for 5 bytes although the wire announces 2^63 + 5. */
  lemma V2Length8TopBitTruncated()
    ensures var b: seq<byte> := [0x80, 0, 0, 0, 0, 0, 0, 5];
            BeUint(b) == TWO63 + 5 && V2Length8AsWritten(b, 1000) == AllocateInt(5)
  {
    var b: seq<byte> := [0x80, 0, 0, 0, 0, 0, 0, 5];
    assert BeUint(b[..1]) == 0x80;
    assert BeUint(b[..2]) == 0x8000 by { assert b[..2][..1] == b[..1]; }
    assert BeUint(b[..3]) == 0x80_0000 by { assert b[..3][..2] == b[..2]; }
    assert BeUint(b[..4]) == 0x8000_0000 by { assert b[..4][..3] == b[..3]; }
    assert BeUint(b[..5]) == 0x80_0000_0000 by { assert b[..5][..4] == b[..4]; }
    assert BeUint(b[..6]) == 0x8000_0000_0000 by { assert b[..6][..5] == b[..5]; }
    assert BeUint(b[..7]) == 0x80_0000_0000_0000 by { assert b[..7][..6] == b[..6]; }
    assert BeUint(b) == TWO63 + 5 by { assert b[..8][..7] == b[..7]; }
  }

  /** All-ones bytes ask the allocator for a negative size. */
  lemma V2Length8AllOnesNegative()
    ensures V2Length8AsWritten([0xFF, 0xFF, 0xFF, 0xFF, 0xFF, 0xFF, 0xFF, 0xFF], 1000) == AllocateInt(-1)
  {
    var b: seq<byte> := [0xFF, 0xFF, 0xFF, 0xFF, 0xFF, 0xFF, 0xFF, 0xFF];
    assert BeUint(b[..1]) == 0xFF;
    assert BeUint(b[..2]) == 0xFFFF by { assert b[..2][..1] == b[..1]; }
    assert BeUint(b[..3]) == 0xFF_FFFF by { assert b[..3][..2] == b[..2]; }
    assert BeUint(b[..4]) == 0xFFFF_FFFF by { assert b[..4][..3] == b[..3]; }
    assert BeUint(b[..5]) == 0xFF_FFFF_FFFF by { assert b[..5][..4] == b[..4]; }
    assert BeUint(b[..6]) == 0xFFFF_FFFF_FFFF by { assert b[..6][..5] == b[..5]; }
    assert BeUint(b[..7]) == 0xFF_FFFF_FFFF_FFFF by { assert b[..7][..6] == b[..6]; }
    assert BeUint(b) == TWO64 - 1 by { assert b[..8][..7] == b[..7]; }
  }

  /** `V2Decoder.eightByteSizeReady` with the length read unsigned, as the
      wire format and the source comment say: no length can reach the
      allocator with a negative or truncated size. */
  function V2Length8(b: seq<byte>, maxmsgsize: int): (r: LengthCheck)
    requires |b| == 8
    ensures r.Accept? <==> BeUint(b) <= INT32_MAX && (maxmsgsize < 0 || BeUint(b) <= maxmsgsize)
    ensures r.Accept? ==> r.size == BeUint(b)
    ensures r.Refuse? ==> r.err == EMSGSIZE
  {
    var msgSize := BeUint(b);
    if maxmsgsize >= 0 && msgSize > maxmsgsize then Refuse(EMSGSIZE)
    else if msgSize > INT32_MAX then Refuse(EMSGSIZE)
    else Accept(msgSize)
  }

  /** The corrected handler differs from the source only on lengths with the top bit set. */
  lemma V2Length8Agrees(b: seq<byte>, maxmsgsize: int)
    requires |b| == 8 && b[0] < 0x80
    ensures V2Length8AsWritten(b, maxmsgsize) ==
              match V2Length8(b, maxmsgsize)
              case Accept(n) => AllocateInt(n)
              case Refuse(e) => Fail(e)
  {
  }

  /** The size limit is inclusive for the one-byte lengths: `max` passes, `max + 1` does not
      (ZMTP/1.0 counts the flags byte in its length, hence the shift by one). */
  lemma OneByteLimitBoundary(maxmsgsize: nat)
    requires maxmsgsize <= 252
    ensures V1LengthByte((maxmsgsize + 1) as byte, maxmsgsize) == Length(Accept(maxmsgsize))
    ensures V1LengthByte((maxmsgsize + 2) as byte, maxmsgsize) == Length(Refuse(EMSGSIZE))
    ensures V2LengthByte(maxmsgsize as byte, maxmsgsize) == Accept(maxmsgsize)
    ensures V2LengthByte((maxmsgsize + 1) as byte, maxmsgsize) == Refuse(EMSGSIZE)
  {
  }

  /** The same boundary for the 8-byte lengths of both revisions. */
  lemma EightByteLimitBoundary(maxmsgsize: nat, b8: seq<byte>)
    requires |b8| == 8 && maxmsgsize < INT32_MAX
    ensures BeUint(b8) == maxmsgsize ==> V2Length8(b8, maxmsgsize) == Accept(maxmsgsize)
    ensures BeUint(b8) == maxmsgsize + 1 ==> V2Length8(b8, maxmsgsize) == Refuse(EMSGSIZE)
    ensures BeUint(b8) == maxmsgsize + 1 ==> V1Length8(b8, maxmsgsize) == Accept(maxmsgsize)
    ensures BeUint(b8) == maxmsgsize + 2 ==> V1Length8(b8, maxmsgsize) == Refuse(EMSGSIZE)
  {
    SizeOf8(b8);
  }
}
