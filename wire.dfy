/** Bytes, Java integer casts and the message value shared by the codecs,
    the stream engine and the router. */
module Wire {

  /** Largest value of a Java `int` (`Integer.MAX_VALUE`). */
  const INT32_MAX: int := 0x7FFF_FFFF
  const INT32_MIN: int := -0x8000_0000
  const TWO32: int := 0x1_0000_0000
  const TWO63: int := 0x8000_0000_0000_0000
  const TWO64: int := 0x1_0000_0000_0000_0000

  /** An octet on the wire, as an unsigned value. */
  newtype byte = x: int | 0 <= x < 256

  /** `b & flag != 0` for a one-bit mask `flag`. */
  function HasFlag(b: byte, flag: byte): bool
    requires flag in {1, 2, 4, 8, 16, 32, 64, 128}
  {
    (b as int / flag as int) % 2 == 1
  }

  /** The errno codes the decoders set. */
  datatype ErrNo = NoError | EPROTO | EMSGSIZE

  /** A message part: payload bytes and the MORE and IDENTITY flags. */
  datatype Msg = Msg(data: seq<byte>, more: bool, identity: bool)

  function Pow256(n: nat): (r: nat)
    ensures r > 0
  {
    if n == 0 then 1 else 256 * Pow256(n - 1)
  }

  /** The value of a Java `byte` (two's complement). */
  function SignedByte(b: byte): (r: int)
    ensures -128 <= r < 128
    ensures r < 0 <==> b >= 0x80
    ensures r == -1 <==> b == 0xFF
    ensures r == 0 <==> b == 0
  {
    if b < 0x80 then b as int else b as int - 256
  }

  /** `(0xFF) & first` applied to a negative Java byte recovers its unsigned value. */
  lemma MaskedSignedByte(b: byte)
    requires SignedByte(b) < 0
    ensures SignedByte(b) + 256 == b as int
  {
  }

  /** Big-endian unsigned value of a byte sequence. */
  function BeUint(s: seq<byte>): (r: nat)
    ensures r < Pow256(|s|)
  {
    if s == [] then 0 else BeUint(s[..|s| - 1]) * 256 + s[|s| - 1] as nat
  }

  /** The `n` big-endian bytes of `u`. */
  function BeBytes(u: nat, n: nat): (r: seq<byte>)
    requires u < Pow256(n)
    ensures |r| == n
  {
    if n == 0 then [] else BeBytes(u / 256, n - 1) + [(u % 256) as byte]
  }

  lemma {:induction false} BeUintBeBytes(u: nat, n: nat)
    requires u < Pow256(n)
    ensures BeUint(BeBytes(u, n)) == u
  {
    if n > 0 {
      var s := BeBytes(u, n);
      var q, m := u / 256, u % 256;
      assert q < Pow256(n - 1) by { DivBound(u, Pow256(n - 1)); }
      assert s[..n - 1] == BeBytes(q, n - 1);
      BeUintBeBytes(q, n - 1);
      assert s[n - 1] as nat == m;
      assert BeUint(s) == BeUint(s[..n - 1]) * 256 + s[n - 1] as nat;
    }
  }

  lemma DivBound(u: nat, p: nat)
    requires u < 256 * p
    ensures u / 256 < p
  {
  }

  lemma {:induction false} BeBytesBeUint(s: seq<byte>)
    ensures BeBytes(BeUint(s), |s|) == s
  {
    if s != [] {
      var p := s[..|s| - 1];
      BeBytesBeUint(p);
      assert BeUint(s) / 256 == BeUint(p);
      assert s == p + [s[|s| - 1]];
    }
  }

  /** `ByteBuffer.getLong`: an 8-byte big-endian two's-complement read. */
  function GetLong(s: seq<byte>): (r: int)
    requires |s| == 8
    ensures -TWO63 <= r < TWO63
    ensures r < 0 <==> s[0] >= 0x80
  {
    SizeOf8(s);
    var u := BeUint(s);
    if u >= TWO63 then u - TWO64 else u
  }

  lemma SizeOf8(s: seq<byte>)
    requires |s| == 8
    ensures BeUint(s) < TWO64
    ensures BeUint(s) >= TWO63 <==> s[0] >= 0x80
  {
    var w := Pow256(7);
    assert w == 0x100_0000_0000_0000 by { Pow256Seven(); }
    BeUintHead(s);
    var a, b := s[0] as nat, BeUint(s[1..]);
    assert b < w;
    assert BeUint(s) == a * w + b;
    assert a < 256;
    if a >= 0x80 {
      MulMono(0x80, a, w);
    } else {
      MulMono(a, 0x7F, w);
    }
  }

  lemma Pow256Seven()
    ensures Pow256(7) == 0x100_0000_0000_0000
  {
  }

  lemma MulMono(a: nat, b: nat, c: nat)
    requires a <= b
    ensures a * c <= b * c
  {
  }

  /** The leading byte weighs `256^(n-1)`. */
  lemma {:induction false} BeUintHead(s: seq<byte>)
    requires |s| >= 1
    ensures BeUint(s) == s[0] as nat * Pow256(|s| - 1) + BeUint(s[1..])
  {
    if |s| > 1 {
      var p := s[..|s| - 1];
      BeUintHead(p);
      var a, b, c := s[0] as nat, BeUint(p[1..]), s[|s| - 1] as nat;
      var w := Pow256(|s| - 2);
      assert BeUint(s) == BeUint(p) * 256 + c;
      assert BeUint(p) == a * w + b by { assert p[0] == s[0]; }
      assert BeUint(s[1..]) == b * 256 + c by {
        assert s[1..][..|s| - 2] == p[1..];
      }
      assert Pow256(|s| - 1) == 256 * w;
      Rearrange(a, b, c, w, BeUint(s), BeUint(p), BeUint(s[1..]), Pow256(|s| - 1));
    } else {
      assert s[1..] == [];
      assert BeUint(s) == s[0] as nat by { assert s[..0] == []; }
      assert Pow256(0) == 1;
    }
  }

  lemma Rearrange(a: nat, b: nat, c: nat, w: nat, vs: nat, vp: nat, vt: nat, pw: nat)
    requires vs == vp * 256 + c && vp == a * w + b && vt == b * 256 + c && pw == 256 * w
    ensures vs == a * pw + vt
  {
    Distrib(a * w, b, 256);
    Assoc(a, w, 256);
  }

  lemma Distrib(a: nat, b: nat, c: nat)
    ensures (a + b) * c == a * c + b * c
  {
  }

  lemma Assoc(a: nat, b: nat, c: nat)
    ensures a * b * c == a * (c * b)
  {
  }

  /** `ByteBuffer.putLong`: the 8 big-endian bytes of a Java `long`. */
  function PutLong(x: int): (r: seq<byte>)
    requires -TWO63 <= x < TWO63
    ensures |r| == 8
  {
    BeBytes(if x < 0 then x + TWO64 else x, 8)
  }

  /** Writing a long and reading it back gives the same value. */
  lemma PutLongGetLong(x: int)
    requires -TWO63 <= x < TWO63
    ensures GetLong(PutLong(x)) == x
  {
    var u := if x < 0 then x + TWO64 else x;
    BeUintBeBytes(u, 8);
  }

  /** `(int) x` for a Java `long` or a wrapped `int` increment: the low 32 bits, two's complement. */
  function ToInt32(x: int): (r: int)
    ensures INT32_MIN <= r <= INT32_MAX
    ensures (r - x) % TWO32 == 0
    ensures INT32_MIN <= x <= INT32_MAX ==> r == x
  {
    var m := x % TWO32;
    if m > INT32_MAX then m - TWO32 else m
  }

  /** `ByteBuffer.putInt`: the 4 big-endian bytes of a Java `int`. */
  function PutInt(x: int): (r: seq<byte>)
    requires INT32_MIN <= x <= INT32_MAX
    ensures |r| == 4
  {
    BeBytes(if x < 0 then x + TWO32 else x, 4)
  }

  /** Distinct Java ints give distinct 4-byte encodings. */
  lemma PutIntInjective(x: int, y: int)
    requires INT32_MIN <= x <= INT32_MAX && INT32_MIN <= y <= INT32_MAX
    requires PutInt(x) == PutInt(y)
    ensures x == y
  {
    BeUintBeBytes(if x < 0 then x + TWO32 else x, 4);
    BeUintBeBytes(if y < 0 then y + TWO32 else y, 4);
  }
}
