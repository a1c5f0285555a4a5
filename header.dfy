/**
 * The fixed 512-byte splash header (`SplashHdr`): an 8-byte magic, four
 * little-endian uint32 fields and zero padding up to 512 bytes.
 */
module SplashHeader {
  import opened Common

  const HEADER_SIZE: nat := 512

  /** The number of bytes the named fields occupy; the rest is padding. */
  const FIELDS_SIZE: nat := 24

  /** ASCII "SPLASH!!". */
  const MAGIC: seq<Byte> := [0x53, 0x50, 0x4C, 0x41, 0x53, 0x48, 0x21, 0x21]

  datatype SplashHdr = SplashHdr(magic: seq<Byte>, width: U32, height: U32, kind: U32, blocks: U32)

  /** The little-endian byte order of a uint32, least significant byte first. */
  function Le32(x: U32): (r: seq<Byte>)
    ensures |r| == 4
  {
    [x % 0x100, x / 0x100 % 0x100, x / 0x100 / 0x100 % 0x100, x / 0x100 / 0x100 / 0x100]
  }

  /** Reads four little-endian bytes back as a uint32. */
  function FromLe32(b: seq<Byte>): (x: U32)
    requires |b| == 4
    ensures x % 0x100 == b[0]
  {
    var b0, b1, b2, b3: int := b[0], b[1], b[2], b[3];
    b0 + 0x100 * (b1 + 0x100 * (b2 + 0x100 * b3))
  }

  /** Decoding the encoding of a uint32 gives it back. */
  lemma Le32RoundTrip(x: U32)
    ensures FromLe32(Le32(x)) == x
  {
  }

  /** Every four bytes are the encoding of some uint32: encoding the decoded value gives them back. */
  lemma FromLe32RoundTrip(b: seq<Byte>)
    requires |b| == 4
    ensures Le32(FromLe32(b)) == b
  {
    var x := FromLe32(b);
    var q1: int := b[1] as int + 0x100 * (b[2] as int + 0x100 * b[3] as int);
    var q2: int := b[2] as int + 0x100 * b[3] as int;
    assert x == b[0] as int + 0x100 * q1;
    assert x / 0x100 == q1 && x % 0x100 == b[0];
    assert q1 / 0x100 == q2 && q1 % 0x100 == b[1];
    assert q2 / 0x100 == b[3] && q2 % 0x100 == b[2];
  }

  /** `SplashHdr.Encode`: the header laid out as 512 little-endian bytes. */
  function Encode(h: SplashHdr): (r: seq<Byte>)
    requires |h.magic| == 8
    ensures |r| == HEADER_SIZE
    ensures r[..8] == h.magic
    ensures FromLe32(r[8..12]) == h.width && FromLe32(r[12..16]) == h.height
    ensures FromLe32(r[16..20]) == h.kind && FromLe32(r[20..24]) == h.blocks
    ensures forall k | FIELDS_SIZE <= k < HEADER_SIZE :: r[k] == 0
  {
    Le32RoundTrip(h.width);
    Le32RoundTrip(h.height);
    Le32RoundTrip(h.kind);
    Le32RoundTrip(h.blocks);
    var r := h.magic + Le32(h.width) + Le32(h.height) + Le32(h.kind) + Le32(h.blocks)
             + Zeros(HEADER_SIZE - FIELDS_SIZE);
    assert r[8..12] == Le32(h.width) && r[12..16] == Le32(h.height);
    assert r[16..20] == Le32(h.kind) && r[20..24] == Le32(h.blocks);
    r
  }

  /**
   * `SplashHdr.Decode`: rejects a buffer shorter than the header and otherwise
   * reads the fields of its first 512 bytes. The magic is not compared with
   * "SPLASH!!"; the padding is not looked at.
   */
  function Decode(data: seq<Byte>): (r: Result<SplashHdr, Error>)
    ensures r.Failure? <==> |data| < HEADER_SIZE
    ensures r.Failure? ==> r.error == HeaderSizeMismatch
    ensures r.Success? ==>
      |r.value.magic| == 8 && Encode(r.value) == data[..FIELDS_SIZE] + Zeros(HEADER_SIZE - FIELDS_SIZE)
  {
    if |data| < HEADER_SIZE then Failure(HeaderSizeMismatch)
    else
      var h := SplashHdr(data[..8], FromLe32(data[8..12]), FromLe32(data[12..16]),
                         FromLe32(data[16..20]), FromLe32(data[20..24]));
      FromLe32RoundTrip(data[8..12]);
      FromLe32RoundTrip(data[12..16]);
      FromLe32RoundTrip(data[16..20]);
      FromLe32RoundTrip(data[20..24]);
      assert data[..FIELDS_SIZE] == data[..8] + data[8..12] + data[12..16] + data[16..20] + data[20..24];
      Success(h)
  }

  /** A header survives encoding followed by decoding. */
  lemma HeaderRoundTrip(h: SplashHdr)
    requires |h.magic| == 8
    ensures Decode(Encode(h)) == Success(h)
  {
    var e := Encode(h);
    Le32RoundTrip(h.width);
    Le32RoundTrip(h.height);
    Le32RoundTrip(h.kind);
    Le32RoundTrip(h.blocks);
    assert e[..8] == h.magic;
  }

  /** A full-size buffer whose magic is not "SPLASH!!" is still accepted. */
  lemma DecodeIgnoresMagic()
    ensures var r := Decode(Zeros(HEADER_SIZE)); r.Success? && r.value.magic != MAGIC
  {
    var r := Decode(Zeros(HEADER_SIZE));
    assert r.value.magic[0] == 0;
  }

  /**
   * `GetImageHeader`: the header of a container whose image has the given
   * size and whose body is `realBytes` long. Type is 1 for an RLE body;
   * Blocks is the body length in 512-byte blocks, rounded up.
   */
  function GetImageHeader(width: nat, height: nat, compressed: bool, realBytes: nat): (r: seq<Byte>)
    ensures |r| == HEADER_SIZE && r[..8] == MAGIC
    ensures FromLe32(r[8..12]) == ToU32(width) && FromLe32(r[12..16]) == ToU32(height)
    ensures FromLe32(r[16..20]) == (if compressed then 1 else 0)
    ensures FromLe32(r[20..24]) == ToU32((realBytes + 511) / 512)
    ensures forall k | FIELDS_SIZE <= k < HEADER_SIZE :: r[k] == 0
    ensures Decode(r).Success?
    ensures Decode(r).value.width == ToU32(width) && Decode(r).value.height == ToU32(height)
    ensures Decode(r).value.kind == 1 <==> compressed
    ensures Decode(r).value.kind <= 1
    ensures Decode(r).value.blocks == ToU32((realBytes + 511) / 512)
  {
    var h := SplashHdr(MAGIC, ToU32(width), ToU32(height), if compressed then 1 else 0,
                       ToU32((realBytes + 511) / 512));
    HeaderRoundTrip(h);
    Encode(h)
  }

  /**
   * When it does not wrap around, the Blocks field is the least number of
   * 512-byte blocks that hold the body.
   */
  lemma BlocksCoverBody(width: nat, height: nat, compressed: bool, realBytes: nat)
    requires realBytes + 511 < 512 * 0x1_0000_0000
    ensures var b := Decode(GetImageHeader(width, height, compressed, realBytes)).value.blocks;
            b * 512 >= realBytes && (b - 1) * 512 < realBytes
  {
    var q := (realBytes + 511) / 512;
    assert q < 0x1_0000_0000;
    assert q * 512 <= realBytes + 511 < q * 512 + 512;
  }
}
