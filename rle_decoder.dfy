/**
 * The RLE body decoder of `ExtractLogoImage`: a cursor walks the stream;
 * a control byte c >= 128 repeats the next triple c-127 times, a control
 * byte c <= 127 copies the next 3(c+1) bytes, and a payload that runs past
 * the end of the stream is fatal. A body whose Type is not 1 is copied.
 *
 * `DecodeStream` decodes entry by entry from the front; `DecodeBody` is the
 * cursor loop, proved to compute the same thing.
 */
module RleDecoder {
  import opened Common
  import opened RleFormat
  import LineEncoder

  /** Puts decoded bytes in front of what the rest of the stream decodes to. */
  function Prepend(prefix: seq<Byte>, r: Result<seq<Byte>, Error>): Result<seq<Byte>, Error> {
    match r
    case Success(v) => Success(prefix + v)
    case Failure(e) => Failure(e)
  }

  lemma PrependNothing(r: Result<seq<Byte>, Error>)
    ensures Prepend([], r) == r
  {
    if r.Success? {
      assert [] + r.value == r.value;
    }
  }

  lemma PrependPrepend(a: seq<Byte>, b: seq<Byte>, r: Result<seq<Byte>, Error>)
    ensures Prepend(a, Prepend(b, r)) == Prepend(a + b, r)
  {
    if r.Success? {
      assert a + (b + r.value) == (a + b) + r.value;
    }
  }

  /** Whole triples in front of whole triples are whole triples. */
  lemma PrependTriples(prefix: seq<Byte>, n: nat, r: Result<seq<Byte>, Error>)
    requires |prefix| == 3 * n
    requires r.Success? ==> |r.value| % 3 == 0
    ensures Prepend(prefix, r).Success? ==> |Prepend(prefix, r).value| % 3 == 0
  {
    if r.Success? {
      var m := |r.value| / 3;
      assert |Prepend(prefix, r).value| == 3 * (n + m);
    }
  }

  /** The decoded bytes of a stream; every decoded stream is a whole number of triples. */
  function DecodeStream(data: seq<Byte>): (r: Result<seq<Byte>, Error>)
    ensures r.Success? ==> |r.value| % 3 == 0
    decreases |data|
  {
    if data == [] then Success([])
    else
      var count := data[0] as int + 1;
      if count > 128 then
        if 1 + 3 > |data| then Failure(TruncatedRepeat)
        else
          var emitted := Repeat(data[1..4], count - 128);
          PrependTriples(emitted, count - 128, DecodeStream(data[4..]));
          Prepend(emitted, DecodeStream(data[4..]))
      else
        var byteCount := count * 3;
        if 1 + byteCount > |data| then Failure(TruncatedRawBlock)
        else
          PrependTriples(data[1..1 + byteCount], count, DecodeStream(data[1 + byteCount..]));
          Prepend(data[1..1 + byteCount], DecodeStream(data[1 + byteCount..]))
  }

  /**
   * The decode loop of `ExtractLogoImage` on the bytes after the header.
   * It never reads past the end of `data`.
   */
  method DecodeBody(kind: U32, data: seq<Byte>) returns (r: Result<seq<Byte>, Error>)
    ensures kind != 1 ==> r == Success(data)
    ensures kind == 1 ==> r == DecodeStream(data)
    ensures kind == 1 && r.Success? ==> |r.value| % 3 == 0
  {
    var offset := 0;
    var dataLen := |data|;
    var buffer: seq<Byte> := [];
    if kind == 1 {
      PrependNothing(DecodeStream(data));
      while offset < dataLen
        invariant 0 <= offset <= dataLen
        invariant Prepend(buffer, DecodeStream(data[offset..])) == DecodeStream(data)
        decreases dataLen - offset
      {
        ghost var rest := data[offset..];
        var count := data[offset] as int + 1;
        offset := offset + 1;
        if count > 128 {
          var repeatCount := count - 128;
          if offset + 3 > dataLen {
            return Failure(TruncatedRepeat);
          }
          var triple := data[offset..offset + 3];
          RepeatStep(rest);
          assert rest[1..4] == triple && rest[4..] == data[offset + 3..];
          PrependPrepend(buffer, Repeat(triple, repeatCount), DecodeStream(data[offset + 3..]));
          buffer := buffer + Repeat(triple, repeatCount);
          offset := offset + 3;
        } else {
          var byteCount := count * 3;
          if offset + byteCount > dataLen {
            return Failure(TruncatedRawBlock);
          }
          var block := data[offset..offset + byteCount];
          LiteralStep(rest);
          assert rest[1..1 + byteCount] == block && rest[1 + byteCount..] == data[offset + byteCount..];
          PrependPrepend(buffer, block, DecodeStream(data[offset + byteCount..]));
          buffer := buffer + block;
          offset := offset + byteCount;
        }
      }
      assert data[offset..] == [];
      assert buffer + [] == buffer;
    } else {
      buffer := buffer + data;
      assert buffer == data;
    }
    return Success(buffer);
  }

  /** A control byte c >= 128 followed by a triple emits the triple c-127 times and skips 4 bytes. */
  lemma RepeatStep(data: seq<Byte>)
    requires |data| >= 4 && data[0] >= 128
    ensures DecodeStream(data) == Prepend(Repeat(data[1..4], data[0] - 127), DecodeStream(data[4..]))
  {
  }

  /** A control byte c < 128 followed by 3(c+1) bytes copies them and skips past them. */
  lemma LiteralStep(data: seq<Byte>)
    requires data != [] && data[0] < 128 && |data| >= 4 + 3 * data[0] as int
    ensures DecodeStream(data) == Prepend(data[1..4 + 3 * data[0] as int], DecodeStream(data[4 + 3 * data[0] as int..]))
  {
    var c := data[0] as int;
    assert 1 + (c + 1) * 3 == 4 + 3 * c;
  }

  /**
   * One decoder step: a control byte c >= 128 needs 3 more bytes and emits
   * that triple c-127 times, advancing by 4; a control byte c < 128 needs
   * 3(c+1) more bytes and copies them, advancing by 1+3(c+1). A payload
   * that would run past the end is an error.
   */
  lemma DecodeStep(data: seq<Byte>)
    requires data != []
    ensures data[0] >= 128 && |data| < 4 ==> DecodeStream(data) == Failure(TruncatedRepeat)
    ensures data[0] >= 128 && |data| >= 4 ==>
      DecodeStream(data) == Prepend(Repeat(data[1..4], data[0] - 127), DecodeStream(data[4..]))
    ensures data[0] < 128 && |data| < 4 + 3 * data[0] as int ==> DecodeStream(data) == Failure(TruncatedRawBlock)
    ensures data[0] < 128 && |data| >= 4 + 3 * data[0] as int ==>
      DecodeStream(data) == Prepend(data[1..4 + 3 * data[0] as int], DecodeStream(data[4 + 3 * data[0] as int..]))
  {
    var c := data[0] as int;
    if c >= 128 && |data| >= 4 {
      RepeatStep(data);
    } else if c < 128 && |data| >= 4 + 3 * c {
      LiteralStep(data);
    } else if c < 128 {
      assert 1 + (c + 1) * 3 == 4 + 3 * c;
    }
  }

  /** A well-formed entry decodes to the triples of its pixels, whatever follows it. */
  lemma DecodeEntry(e: Entry, rest: seq<Byte>)
    requires WellFormed(e)
    ensures DecodeStream(SerEntry(e) + rest) == Prepend(BgrBytes(e.pix), DecodeStream(rest))
  {
    var data := SerEntry(e) + rest;
    ControlByteRange(e);
    assert data[0] == ControlByte(e);
    if IsRepeat(e) {
      assert data[1..4] == PixelBgr(e.pix[0]) && data[4..] == rest;
      RepeatIsBgrBytes(e.pix, e.pix[0]);
    } else {
      var n := 3 * |e.pix|;
      assert data[1..1 + n] == BgrBytes(e.pix) && data[1 + n..] == rest;
    }
  }

  /**
   * Serialised well-formed entries decode to the triples of their pixels,
   * in order, and the decoder then carries on with whatever follows.
   */
  lemma {:induction false} DecodeEntries(es: seq<Entry>, rest: seq<Byte>)
    requires AllWellFormed(es)
    ensures DecodeStream(SerEntries(es) + rest) == Prepend(BgrBytes(Flatten(es)), DecodeStream(rest))
    decreases |es|
  {
    if es == [] {
      assert SerEntries(es) + rest == rest;
      PrependNothing(DecodeStream(rest));
    } else {
      var init, e := es[..|es| - 1], es[|es| - 1];
      assert AllWellFormed(init);
      assert SerEntries(es) + rest == SerEntries(init) + (SerEntry(e) + rest);
      DecodeEntries(init, SerEntry(e) + rest);
      DecodeEntry(e, rest);
      PrependPrepend(BgrBytes(Flatten(init)), BgrBytes(e.pix), DecodeStream(rest));
      BgrBytesConcat(Flatten(init), e.pix);
    }
  }

  /**
   * A stream of whole entries followed by a cut-off entry is rejected:
   * truncation is an error, never an out-of-bounds read.
   */
  lemma TruncatedEntryRejected(es: seq<Entry>, e: Entry, k: nat)
    requires AllWellFormed(es) && WellFormed(e)
    requires 1 <= k < |SerEntry(e)|
    ensures DecodeStream(SerEntries(es) + SerEntry(e)[..k]).Failure?
  {
    var cut := SerEntry(e)[..k];
    DecodeEntries(es, cut);
    ControlByteRange(e);
    assert cut[0] == ControlByte(e);
  }

  /**
   * Encoding a row of at least two pixels and decoding the result gives the
   * row's B,G,R triples back.
   */
  lemma DecodeEncodedRow(line: seq<Pixel>, rest: seq<Byte>)
    requires |line| >= 2
    ensures DecodeStream(SerEntries(LineEncoder.LineEntries(line)) + rest)
         == Prepend(BgrBytes(line), DecodeStream(rest))
  {
    DecodeEntries(LineEncoder.LineEntries(line), rest);
  }

  /** With the corrected row encoder every non-empty row round-trips, one pixel wide included. */
  lemma DecodeCorrectedRow(line: seq<Pixel>, rest: seq<Byte>)
    requires |line| >= 1
    ensures DecodeStream(SerEntries(LineEncoder.RowEntries(line)) + rest)
         == Prepend(BgrBytes(line), DecodeStream(rest))
  {
    DecodeEntries(LineEncoder.RowEntries(line), rest);
  }
}
