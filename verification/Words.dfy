/** Fixed-width unsigned words and their big-endian byte images. */
module Words {

  const U32: int := 0x1_0000_0000
  const U64: int := 0x1_0000_0000_0000_0000

  type Byte = x: int | 0 <= x < 256
  type Word32 = x: int | 0 <= x < 0x1_0000_0000
  type Word64 = x: int | 0 <= x < 0x1_0000_0000_0000_0000

  /** 32-bit unsigned arithmetic: every result is reduced modulo 2^32. */
  function Add32(a: int, b: int): Word32 { (a + b) % U32 }
  function Sub32(a: int, b: int): Word32 { (a - b) % U32 }
  function Mul32(a: int, b: int): Word32 { (a * b) % U32 }

  /** Results that fit are exact. */
  lemma Exact32(x: int)
    requires 0 <= x < U32
    ensures x % U32 == x
  {
  }

  /** The bytes that `htonl` leaves in memory: most significant first. */
  function Big32(x: Word32): (s: seq<Byte>)
    ensures |s| == 4
  {
    [x / 0x100_0000, x / 0x1_0000 % 256, x / 256 % 256, x % 256]
  }

  /** `ntohl` of four bytes in memory. */
  function Word32Of(s: seq<Byte>): (x: Word32)
    requires |s| == 4
  {
    s[0] as int * 0x100_0000 + s[1] as int * 0x1_0000 + s[2] as int * 256 + s[3] as int
  }

  /** `htobe64`: the high half, then the low half. */
  function Big64(x: Word64): (s: seq<Byte>)
    ensures |s| == 8
  {
    Big32(x / U32) + Big32(x % U32)
  }

  function Word64Of(s: seq<Byte>): (x: Word64)
    requires |s| == 8
  {
    Word32Of(s[..4]) * U32 + Word32Of(s[4..])
  }

  lemma Word32RoundTrip(x: Word32)
    ensures Word32Of(Big32(x)) == x
  {
    assert x / 256 == x / 0x1_0000 * 256 + x / 256 % 256;
    assert x / 0x1_0000 == x / 0x100_0000 * 256 + x / 0x1_0000 % 256;
  }

  lemma Bytes32RoundTrip(s: seq<Byte>)
    requires |s| == 4
    ensures Big32(Word32Of(s)) == s
  {
    var x := Word32Of(s);
    var a: int, b: int, c: int := s[0], s[1], s[2];
    assert x / 256 == a * 0x1_0000 + b * 256 + c;
    assert x / 0x1_0000 == a * 256 + b;
  }

  lemma Word64RoundTrip(x: Word64)
    ensures Word64Of(Big64(x)) == x
  {
    var s := Big64(x);
    assert s[..4] == Big32(x / U32) && s[4..] == Big32(x % U32);
    Word32RoundTrip(x / U32);
    Word32RoundTrip(x % U32);
  }

  lemma Bytes64RoundTrip(s: seq<Byte>)
    requires |s| == 8
    ensures Big64(Word64Of(s)) == s
  {
    var hi, lo := Word32Of(s[..4]), Word32Of(s[4..]);
    assert Word64Of(s) / U32 == hi && Word64Of(s) % U32 == lo;
    Bytes32RoundTrip(s[..4]);
    Bytes32RoundTrip(s[4..]);
    assert s == s[..4] + s[4..];
  }

  // The order of the bytes.

  /** The number that bytes stand for, each worth 256 of the next. */
  function Positional(s: seq<Byte>): nat {
    if s == [] then 0 else Positional(s[..|s| - 1]) * 256 + s[|s| - 1] as int
  }

  /** Four bytes in memory are read most significant first. */
  lemma {:induction false} Word32IsPositional(s: seq<Byte>)
    requires |s| == 4
    ensures Word32Of(s) == Positional(s)
  {
    assert s[..3][..2] == s[..2] && s[..2][..1] == s[..1] && s[..1][..0] == [];
    assert Positional(s[..1]) == s[0] as int;
    assert Positional(s[..2]) == s[0] as int * 256 + s[1] as int;
    assert Positional(s[..3]) == s[0] as int * 0x1_0000 + s[1] as int * 256 + s[2] as int;
  }

  /** What `htonl` leaves in memory is the number, most significant byte first. */
  lemma Big32IsPositional(x: Word32)
    ensures Positional(Big32(x)) == x
  {
    Word32IsPositional(Big32(x));
    Word32RoundTrip(x);
  }

  lemma {:induction false} PositionalAppend(s: seq<Byte>, t: seq<Byte>)
    requires |t| == 4
    ensures Positional(s + t) == Positional(s) * U32 + Positional(t)
  {
    var a, b, c := s + t[..1], s + t[..2], s + t[..3];
    assert (s + t)[..|s| + 3] == c && c[..|s| + 2] == b && b[..|s| + 1] == a && a[..|s|] == s;
    Word32IsPositional(t);
    assert Positional(a) == Positional(s) * 256 + t[0] as int;
    assert Positional(b) == Positional(a) * 256 + t[1] as int;
    assert Positional(c) == Positional(b) * 256 + t[2] as int;
  }

  lemma {:induction false} Word64IsPositional(s: seq<Byte>)
    requires |s| == 8
    ensures Word64Of(s) == Positional(s)
  {
    assert s == s[..4] + s[4..];
    Word32IsPositional(s[..4]);
    Word32IsPositional(s[4..]);
    PositionalAppend(s[..4], s[4..]);
  }

  /** So it is with `htobe64`. */
  lemma Big64IsPositional(x: Word64)
    ensures Positional(Big64(x)) == x
  {
    Word64IsPositional(Big64(x));
    Word64RoundTrip(x);
  }
}
