/** The allocator's block header: the 16 bytes that sit in front of every
    block's payload and say how big the block is, who owns it and who may
    release it.

    Layout, byte by byte:
      0..3    the block size, a C `int` (two's complement, little-endian)
      4       0
      5       the mode character: 'U' (owner only), 'G' (owner and the
              users the owner trusts) or 'A' (every user)
      6..13   the owner's user name, 8 characters
      14      0, terminating the name
      15      0
    The payload starts right after byte 15. */
module MemCacheHeader {
  import opened Wrappers

  newtype byte = x: int | 0 <= x < 256

  const HeaderSize: nat := 16
  const UserNameLength: nat := 8
  /** 2^31: C `int` values lie in [-2^31, 2^31). */
  const IntLimit: int := 0x8000_0000

  datatype Mode = OwnerOnly | Group | Everyone

  datatype Header = Header(size: int, mode: Mode, owner: string)

  /** The mode a mode character stands for, if any. */
  function ModeOf(c: char): (m: Option<Mode>)
    ensures m.Some? <==> c in {'U', 'G', 'A'}
    ensures m.Some? ==> ModeChar(m.value) == c
  {
    if c == 'U' then Some(OwnerOnly)
    else if c == 'G' then Some(Group)
    else if c == 'A' then Some(Everyone)
    else None
  }

  function ModeChar(m: Mode): char {
    match m
    case OwnerOnly => 'U'
    case Group => 'G'
    case Everyone => 'A'
  }

  /** An ASCII letter or digit, as C's `isalnum` in the "C" locale. */
  predicate IsAlnum(c: char) {
    ('0' <= c <= '9') || ('A' <= c <= 'Z') || ('a' <= c <= 'z')
  }

  /** A legal user name: exactly eight letters and digits. */
  predicate IsLegalName(name: string) {
    |name| == UserNameLength && forall i :: 0 <= i < |name| ==> IsAlnum(name[i])
  }

  /** A header the allocator can write: a positive `int` size and a legal
      owner. */
  predicate WellFormed(h: Header) {
    0 < h.size < IntLimit && IsLegalName(h.owner)
  }

  /* ---------------------------------------------------------------------- */
  /* Little-endian 32-bit integers                                          */
  /* ---------------------------------------------------------------------- */

  function EncodeInt32(n: int): (bs: seq<byte>)
    requires 0 <= n < IntLimit
    ensures |bs| == 4
  {
    [(n % 256) as byte, (n / 256 % 256) as byte, (n / 256 / 256 % 256) as byte, (n / 256 / 256 / 256) as byte]
  }

  /** Reads a C `int` back: the top bit of the last byte is the sign. */
  function DecodeInt32(bs: seq<byte>): (n: int)
    requires |bs| == 4
    ensures -IntLimit <= n < IntLimit
  {
    var u := bs[0] as int + 256 * bs[1] as int + 65536 * bs[2] as int + 16777216 * bs[3] as int;
    if u < IntLimit then u else u - 2 * IntLimit
  }

  lemma DecodeEncodeInt32(n: int)
    requires 0 <= n < IntLimit
    ensures DecodeInt32(EncodeInt32(n)) == n
  {
  }

  lemma EncodeDecodeInt32(bs: seq<byte>)
    requires |bs| == 4 && DecodeInt32(bs) >= 0
    ensures EncodeInt32(DecodeInt32(bs)) == bs
  {
    var n := DecodeInt32(bs);
    var high2 := bs[2] as int + 256 * bs[3] as int;
    var high1 := bs[1] as int + 256 * high2;
    assert n == bs[0] as int + 256 * high1;
    SplitByte(n, bs[0] as int, high1);
    SplitByte(high1, bs[1] as int, high2);
    SplitByte(high2, bs[2] as int, bs[3] as int);
    var e := EncodeInt32(n);
    assert e == bs;
  }

  /** The low byte and the rest of a number written in base 256. */
  lemma SplitByte(x: int, low: int, high: int)
    requires 0 <= low < 256 && x == low + 256 * high
    ensures x % 256 == low && x / 256 == high
  {
  }

  /* ---------------------------------------------------------------------- */
  /* Names                                                                  */
  /* ---------------------------------------------------------------------- */

  function EncodeName(name: string): (bs: seq<byte>)
    requires IsLegalName(name)
    ensures |bs| == |name|
    ensures forall i :: 0 <= i < |bs| ==> bs[i] as int == name[i] as int
  {
    seq(|name|, i requires 0 <= i < |name| => name[i] as int as byte)
  }

  function DecodeName(bs: seq<byte>): (name: string)
    ensures |name| == |bs|
    ensures forall i :: 0 <= i < |bs| ==> name[i] as int == bs[i] as int
  {
    seq(|bs|, i requires 0 <= i < |bs| => bs[i] as int as char)
  }

  /* ---------------------------------------------------------------------- */
  /* The header                                                             */
  /* ---------------------------------------------------------------------- */

  /** The 16 bytes written in front of a block. */
  function Encode(h: Header): (bs: seq<byte>)
    requires WellFormed(h)
    ensures |bs| == HeaderSize
    ensures bs[4] == 0 && bs[14] == 0 && bs[15] == 0
    ensures bs[5] as int == ModeChar(h.mode) as int
  {
    EncodeInt32(h.size) + [0, ModeChar(h.mode) as int as byte] + EncodeName(h.owner) + [0, 0]
  }

  /** Reads a header back; `None` unless the bytes are exactly what `Encode`
      writes for some well-formed header. */
  function Decode(bs: seq<byte>): (h: Option<Header>)
    ensures h.Some? ==> WellFormed(h.value)
  {
    if |bs| != HeaderSize then None
    else if bs[4] != 0 || bs[14] != 0 || bs[15] != 0 then None
    else
      var size := DecodeInt32(bs[..4]);
      var mode := ModeOf(bs[5] as int as char);
      var owner := DecodeName(bs[6..14]);
      if size <= 0 || mode.None? || !IsLegalName(owner) then None
      else Some(Header(size, mode.value, owner))
  }

  /** Decoding what was encoded gives back the header. */
  lemma DecodeEncode(h: Header)
    requires WellFormed(h)
    ensures Decode(Encode(h)) == Some(h)
  {
    var bs := Encode(h);
    assert bs[..4] == EncodeInt32(h.size);
    DecodeEncodeInt32(h.size);
    assert bs[6..14] == EncodeName(h.owner);
    var owner := DecodeName(bs[6..14]);
    assert owner == h.owner;
    var c := ModeChar(h.mode);
    assert bs[5] as int as char == c;
  }

  /** Whatever decodes is exactly the encoding of what it decodes to: the
      format has no slack. */
  lemma EncodeDecode(bs: seq<byte>)
    requires Decode(bs).Some?
    ensures Encode(Decode(bs).value) == bs
  {
    var h := Decode(bs).value;
    EncodeDecodeInt32(bs[..4]);
    var name := EncodeName(h.owner);
    assert name == bs[6..14];
    var mode := ModeChar(h.mode);
    assert ModeOf(bs[5] as int as char) == Some(h.mode);
    assert mode == bs[5] as int as char;
    assert [0 as byte, mode as int as byte] == bs[4..6];
    assert bs == bs[..4] + bs[4..6] + bs[6..14] + bs[14..];
  }
}
