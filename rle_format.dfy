/**
 * Run entries (`Entry`) and their byte layout: a control byte `Count-1`
 * followed by one B,G,R triple for a repeat run, or `Count` triples for a
 * literal run.
 */
module RleFormat {
  import opened Common

  /** A pixel packed as 0x00RRGGBB in a uint32, as `EncodeRLE24` builds it. */
  type Pixel = U32

  /**
   * `Entry{Count, Pix}`. A literal run has `Count` = 1..128 and its pixels in
   * `pix`; a repeat run has `Count` = 128 + n and its n equal pixels in `pix`.
   */
  datatype Entry = Entry(count: int, pix: seq<Pixel>)

  predicate IsLiteral(e: Entry) {
    1 <= e.count <= 128 && |e.pix| == e.count
  }

  predicate IsRepeat(e: Entry) {
    130 <= e.count <= 256 && |e.pix| == e.count - 128 &&
    forall k | 0 <= k < |e.pix| :: e.pix[k] == e.pix[0]
  }

  predicate WellFormed(e: Entry) {
    IsLiteral(e) || IsRepeat(e)
  }

  predicate AllWellFormed(es: seq<Entry>) {
    forall i | 0 <= i < |es| :: WellFormed(es[i])
  }

  /** What the serialiser needs of an entry: a repeat run has a first pixel to write. */
  predicate Serialisable(e: Entry) {
    e.count <= 128 || |e.pix| > 0
  }

  /** The pixels of the entries, in order. */
  function Flatten(es: seq<Entry>): seq<Pixel> {
    if es == [] then [] else Flatten(es[..|es| - 1]) + es[|es| - 1].pix
  }

  lemma FlattenAppend(es: seq<Entry>, e: Entry)
    ensures Flatten(es + [e]) == Flatten(es) + e.pix
  {
    assert (es + [e])[..|es|] == es;
  }

  /** The three bytes written for a packed pixel: `p&0xFF`, `(p>>8)&0xFF`, `(p>>16)&0xFF`. */
  function PixelBgr(p: Pixel): (r: seq<Byte>)
    ensures |r| == 3
  {
    [p % 0x100, p / 0x100 % 0x100, p / 0x10000 % 0x100]
  }

  /** The triples of a sequence of pixels, in order. */
  function BgrBytes(ps: seq<Pixel>): (r: seq<Byte>)
    ensures |r| == 3 * |ps|
  {
    if ps == [] then [] else BgrBytes(ps[..|ps| - 1]) + PixelBgr(ps[|ps| - 1])
  }

  lemma {:induction false} BgrBytesConcat(a: seq<Pixel>, b: seq<Pixel>)
    ensures BgrBytes(a + b) == BgrBytes(a) + BgrBytes(b)
    decreases |b|
  {
    if b == [] {
      assert a + b == a;
    } else {
      var b' := b[..|b| - 1];
      assert (a + b)[..|a + b| - 1] == a + b';
      BgrBytesConcat(a, b');
    }
  }

  /** The triple of pixel `i` sits at bytes 3i..3i+2. */
  lemma {:induction false} BgrBytesAt(ps: seq<Pixel>, i: nat)
    requires i < |ps|
    ensures BgrBytes(ps)[3 * i .. 3 * i + 3] == PixelBgr(ps[i])
    decreases |ps|
  {
    if i < |ps| - 1 {
      BgrBytesAt(ps[..|ps| - 1], i);
    }
  }

  /** A run of n equal pixels is written as the pixel's triple n times. */
  function Repeat(s: seq<Byte>, n: nat): (r: seq<Byte>)
    ensures |r| == |s| * n
  {
    if n == 0 then [] else s + Repeat(s, n - 1)
  }

  lemma {:induction false} RepeatIsBgrBytes(ps: seq<Pixel>, p: Pixel)
    requires forall k | 0 <= k < |ps| :: ps[k] == p
    ensures BgrBytes(ps) == Repeat(PixelBgr(p), |ps|)
    decreases |ps|
  {
    if ps != [] {
      var tail := ps[1..];
      RepeatIsBgrBytes(tail, p);
      assert ps == [ps[0]] + tail;
      BgrBytesConcat([ps[0]], tail);
      assert BgrBytes([ps[0]]) == PixelBgr(p) by {
        assert [ps[0]][..0] == [];
      }
    }
  }

  /** `uint8(entry.Count - 1)`. */
  function ControlByte(e: Entry): Byte {
    (e.count - 1) % 0x100
  }

  /** The bytes `EncodeRLE24` writes for one entry. */
  function SerEntry(e: Entry): (r: seq<Byte>)
    requires Serialisable(e)
    ensures r != [] && r[0] == ControlByte(e)
    ensures WellFormed(e) ==>
      |r| == if IsRepeat(e) then 4 else 1 + 3 * |e.pix|
  {
    [ControlByte(e)] + if e.count > 128 then PixelBgr(e.pix[0]) else BgrBytes(e.pix)
  }

  /** The bytes written for a row's entries, in order. */
  function SerEntries(es: seq<Entry>): seq<Byte>
    requires forall i | 0 <= i < |es| :: Serialisable(es[i])
  {
    if es == [] then [] else SerEntries(es[..|es| - 1]) + SerEntry(es[|es| - 1])
  }

  lemma SerEntriesAppend(es: seq<Entry>, e: Entry)
    requires forall i | 0 <= i < |es| :: Serialisable(es[i])
    requires Serialisable(e)
    ensures SerEntries(es + [e]) == SerEntries(es) + SerEntry(e)
  {
    assert (es + [e])[..|es|] == es;
  }

  /**
   * The control byte of a well-formed entry is never 0x80: it is 0..127 for
   * a literal run of `ControlByte+1` pixels and 129..255 for a repeat run of
   * `ControlByte+1-128` pixels.
   */
  lemma ControlByteRange(e: Entry)
    requires WellFormed(e)
    ensures ControlByte(e) != 0x80
    ensures IsLiteral(e) ==> ControlByte(e) <= 127 && ControlByte(e) + 1 == |e.pix|
    ensures IsRepeat(e) ==> 129 <= ControlByte(e) && ControlByte(e) + 1 - 128 == |e.pix|
  {
  }
}
