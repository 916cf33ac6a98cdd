/** The record codec: a frame is checksum(8) ++ BE32(length)(4) ++ payload,
    where the checksum is a 64-bit hash of BE32(length) ++ payload. */
module Codec {
  import opened Bytes

  const HashLen: nat := 8
  const IntLen: nat := 4
  /** Bytes in front of the payload: the checksum and the length field. */
  const HeaderLen: nat := HashLen + IntLen

  /** An 8-byte checksum value as stored in a frame. */
  type Digest = s: seq<byte> | |s| == HashLen witness [0, 0, 0, 0, 0, 0, 0, 0]

  /** The checksum function. The source uses xxhash64 serialised to 8 bytes;
      the model takes it as a parameter and assumes only that it is a total,
      deterministic function whose results are 8 bytes long, so every result
      below holds for xxhash and for any other such hash. */
  type Hasher = seq<byte> -> Digest

  /** A payload whose length fits the 32-bit length field. */
  predicate Storable(value: seq<byte>)
  {
    |value| < Uint32Limit
  }

  predicate AllStorable(values: seq<seq<byte>>)
  {
    forall i | 0 <= i < |values| :: Storable(values[i])
  }

  lemma AllStorableSlice(values: seq<seq<byte>>, lo: nat, hi: nat)
    requires AllStorable(values) && lo <= hi <= |values|
    ensures AllStorable(values[lo..hi]) && AllStorable(values[..hi]) && AllStorable(values[lo..])
  {
    assert forall i | 0 <= i < hi - lo :: values[lo..hi][i] == values[lo + i];
    assert forall i | 0 <= i < |values| - lo :: values[lo..][i] == values[lo + i];
  }

  /** getChecksum(valueLen, value): the hash of valueLen ++ value. */
  function GetChecksum(h: Hasher, valueLen: seq<byte>, value: seq<byte>): (checksum: seq<byte>)
    ensures |checksum| == HashLen
  {
    h(valueLen + value)
  }

  /** The frame StoreValue writes for `value`. */
  function EncodeFrame(h: Hasher, value: seq<byte>): (frame: seq<byte>)
    requires Storable(value)
    ensures |frame| == HeaderLen + |value|
    ensures frame[HashLen..HeaderLen] == PutUint32(|value|)
    ensures frame[HeaderLen..] == value
    ensures frame[..HashLen] == GetChecksum(h, frame[HashLen..HeaderLen], frame[HeaderLen..])
  {
    var dataLenBuf := PutUint32(|value|);
    var checksum := GetChecksum(h, dataLenBuf, value);
    checksum + dataLenBuf + value
  }

  /** The frames of `values`, one after another: a well-formed log file. */
  function Frames(h: Hasher, values: seq<seq<byte>>): (file: seq<byte>)
    requires AllStorable(values)
    ensures file == [] <==> values == []
    ensures values != [] ==> EncodeFrame(h, values[0]) <= file
  {
    if values == [] then []
    else
      AllStorableSlice(values, 1, |values|);
      EncodeFrame(h, values[0]) + Frames(h, values[1..])
  }

  /** Appending one value appends its frame. */
  lemma {:induction false} FramesAppend(h: Hasher, values: seq<seq<byte>>, value: seq<byte>)
    requires AllStorable(values) && Storable(value)
    ensures AllStorable(values + [value])
    ensures Frames(h, values + [value]) == Frames(h, values) + EncodeFrame(h, value)
  {
    var vs := values + [value];
    assert AllStorable(vs) by {
      forall i | 0 <= i < |vs| ensures Storable(vs[i]) {
        if i < |values| { assert vs[i] == values[i]; }
      }
    }
    if values == [] {
      assert vs[1..] == [];
    } else {
      assert vs[1..] == values[1..] + [value];
      AllStorableSlice(values, 1, |values|);
      FramesAppend(h, values[1..], value);
    }
  }

  /** The same, with the frames following some other bytes. */
  lemma FramesAppendAfter(h: Hasher, prefix: seq<byte>, values: seq<seq<byte>>, value: seq<byte>)
    requires AllStorable(values) && Storable(value)
    ensures AllStorable(values + [value])
    ensures prefix + Frames(h, values) + EncodeFrame(h, value) == prefix + Frames(h, values + [value])
  {
    FramesAppend(h, values, value);
  }

  /** What reading one frame at the start of a buffer can give: the payload
      and the frame's size, or one of the two reasons the scan stops. */
  datatype Decoded =
    | Frame(value: seq<byte>, size: nat)
    | Incomplete          // checksum, length field or payload runs past the end
    | ChecksumMismatch    // the stored checksum differs from the recomputed one

  /** One iteration of the recovery loop, at offset 0 of `buf`. */
  function DecodeFrame(h: Hasher, buf: seq<byte>): (r: Decoded)
    ensures r.Frame? ==> Storable(r.value) && r.size == HeaderLen + |r.value| <= |buf|
  {
    if |buf| < HashLen then Incomplete
    else if |buf| < HashLen + IntLen then Incomplete
    else
      var checksum := buf[..HashLen];
      var rawDataLen := buf[HashLen..HeaderLen];
      var dataLen := Uint32(rawDataLen);
      if |buf| < HeaderLen + dataLen then Incomplete
      else
        var dataContent := buf[HeaderLen..HeaderLen + dataLen];
        if GetChecksum(h, rawDataLen, dataContent) != checksum then ChecksumMismatch
        else
          Frame(dataContent, HeaderLen + dataLen)
  }

  /** A frame that decodes is exactly the frame EncodeFrame writes for its
      payload: the checksum, the length field and the payload all agree. */
  lemma DecodedFrameIsEncoded(h: Hasher, buf: seq<byte>)
    requires DecodeFrame(h, buf).Frame?
    ensures var r := DecodeFrame(h, buf); buf[..r.size] == EncodeFrame(h, r.value)
  {
    var rawDataLen := buf[HashLen..HeaderLen];
    var dataLen := Uint32(rawDataLen);
    PutUint32OfUint32(rawDataLen);
    assert buf[..HeaderLen + dataLen] == buf[..HashLen] + rawDataLen + buf[HeaderLen..HeaderLen + dataLen];
  }

  /** A frame written by EncodeFrame reads back as its value, whatever follows it. */
  lemma DecodeEncodedFrame(h: Hasher, value: seq<byte>, rest: seq<byte>)
    requires Storable(value)
    ensures DecodeFrame(h, EncodeFrame(h, value) + rest) == Frame(value, HeaderLen + |value|)
  {
    var frame := EncodeFrame(h, value);
    var buf := frame + rest;
    Uint32OfPutUint32(|value|);
    assert buf[..HashLen] == frame[..HashLen];
    assert buf[HashLen..HeaderLen] == frame[HashLen..HeaderLen];
    assert buf[HeaderLen..HeaderLen + |value|] == frame[HeaderLen..];
  }

  /** Decoding succeeds with `value` exactly when the buffer starts with the
      frame of `value`. */
  lemma DecodeFrameIff(h: Hasher, buf: seq<byte>, value: seq<byte>)
    requires Storable(value)
    ensures DecodeFrame(h, buf) == Frame(value, HeaderLen + |value|)
        <==> EncodeFrame(h, value) <= buf
  {
    var frame := EncodeFrame(h, value);
    if frame <= buf {
      assert buf == frame + buf[|frame|..];
      DecodeEncodedFrame(h, value, buf[|frame|..]);
    } else if DecodeFrame(h, buf).Frame? {
      DecodedFrameIsEncoded(h, buf);
    }
  }

  /** A proper prefix of a frame (a write cut short) is reported Incomplete,
      whatever the hash. */
  lemma TornFrameIncomplete(h: Hasher, value: seq<byte>, k: nat)
    requires Storable(value)
    requires k < |EncodeFrame(h, value)|
    ensures DecodeFrame(h, EncodeFrame(h, value)[..k]) == Incomplete
  {
    var frame := EncodeFrame(h, value);
    var buf := frame[..k];
    if k >= HeaderLen {
      assert buf[HashLen..HeaderLen] == frame[HashLen..HeaderLen];
      Uint32OfPutUint32(|value|);
    }
  }
}
