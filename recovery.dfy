/** The recovery scan as a function: walk the file frame by frame from
    offset 0 and stop at the first frame that is incomplete or fails its
    checksum. The loop of readLogFromFile, ScanFile below, is proved equal
    to Scan. */
module Recovery {
  import opened Bytes
  import opened Codec

  /** What the scan establishes: the number of good frames (maxLogIndex)
      and the offset just after the last of them (lastValidPos). */
  datatype ScanResult = ScanResult(count: nat, lastValidPos: nat)

  function Scan(h: Hasher, buf: seq<byte>): (r: ScanResult)
    ensures r.lastValidPos <= |buf|
    decreases |buf|
  {
    if |buf| == 0 then ScanResult(0, 0)
    else match DecodeFrame(h, buf)
      case Frame(_, size) =>
        var rest := Scan(h, buf[size..]);
        ScanResult(rest.count + 1, size + rest.lastValidPos)
      case _ => ScanResult(0, 0)
  }

  /** Every counted frame takes at least HeaderLen bytes, and nothing is
      accepted exactly when nothing is counted. */
  lemma {:induction false} ScanCountBound(h: Hasher, buf: seq<byte>)
    ensures Scan(h, buf).count * HeaderLen <= Scan(h, buf).lastValidPos
    ensures Scan(h, buf).count == 0 <==> Scan(h, buf).lastValidPos == 0
    decreases |buf|
  {
    if |buf| != 0 {
      match DecodeFrame(h, buf)
      case Frame(_, size) =>
        var rest := Scan(h, buf[size..]);
        ScanCountBound(h, buf[size..]);
        assert Scan(h, buf) == ScanResult(rest.count + 1, size + rest.lastValidPos);
        assert (rest.count + 1) * HeaderLen == rest.count * HeaderLen + HeaderLen;
      case _ =>
    }
  }

  /** The payloads of the frames the scan accepts, in file order. It walks
      the buffer as Scan does; Scan keeps to the two numbers the loop
      computes, this one names the records the kept bytes hold.
      ScanKeepsFramesOfRecovered ties the two: |values| is Scan's count and
      the frames of values end at Scan's lastValidPos. */
  function RecoveredValues(h: Hasher, buf: seq<byte>): (values: seq<seq<byte>>)
    ensures AllStorable(values)
    ensures Frames(h, values) <= buf
    decreases |buf|
  {
    if |buf| == 0 then []
    else match DecodeFrame(h, buf)
      case Frame(value, size) =>
        var rest := RecoveredValues(h, buf[size..]);
        DecodedFrameIsEncoded(h, buf);
        FramesCons(h, value, rest);
        PrefixAfter(buf[..size], Frames(h, rest), buf[size..]);
        assert buf == buf[..size] + buf[size..];
        [value] + rest
      case _ => []
  }

  lemma AppendAssoc(a: seq<byte>, b: seq<byte>, c: seq<byte>)
    ensures (a + b) + c == a + (b + c)
  {
  }

  lemma AppendDrop(a: seq<byte>, b: seq<byte>)
    ensures (a + b)[|a|..] == b
  {
  }

  lemma PrefixAfter(a: seq<byte>, b: seq<byte>, c: seq<byte>)
    requires b <= c
    ensures a + b <= a + c
  {
    assert (a + c)[..|a + b|] == a + b;
  }

  lemma TakeAfter(a: seq<byte>, b: seq<byte>, n: nat)
    requires n <= |b|
    ensures (a + b)[..|a| + n] == a + b[..n]
  {
  }

  lemma DropTail(a: seq<byte>, b: seq<byte>, k: nat)
    requires k <= |b|
    ensures (a + b)[..|a + b| - k] == a + b[..|b| - k]
  {
    TakeAfter(a, b, |b| - k);
  }

  /** Scanning a frame followed by anything accepts the frame and goes on
      with what follows. */
  lemma ScanCons(h: Hasher, value: seq<byte>, tail: seq<byte>)
    requires Storable(value)
    ensures Scan(h, EncodeFrame(h, value) + tail)
         == ScanResult(Scan(h, tail).count + 1, |EncodeFrame(h, value)| + Scan(h, tail).lastValidPos)
  {
    DecodeEncodedFrame(h, value, tail);
    AppendDrop(EncodeFrame(h, value), tail);
  }

  /** The three ways the scan stops at offset `pos` of `buf`: too few bytes
      left for the checksum and the length field, too few for the payload the
      length field announces, or a checksum that does not match. Stated on
      the slices the scan loop reads. */
  lemma ScanStopsShortHeader(h: Hasher, buf: seq<byte>, pos: nat)
    requires pos <= |buf| < pos + HeaderLen
    ensures Scan(h, buf[pos..]) == ScanResult(0, 0)
  {
  }

  lemma ScanStopsShortPayload(h: Hasher, buf: seq<byte>, pos: nat)
    requires pos + HeaderLen <= |buf| < pos + HeaderLen + Uint32(buf[pos + HashLen..pos + HeaderLen])
    ensures Scan(h, buf[pos..]) == ScanResult(0, 0)
  {
    assert buf[pos..][HashLen..HeaderLen] == buf[pos + HashLen..pos + HeaderLen];
  }

  lemma ScanStopsMismatch(h: Hasher, buf: seq<byte>, pos: nat)
    requires pos + HeaderLen <= |buf|
    requires pos + HeaderLen + Uint32(buf[pos + HashLen..pos + HeaderLen]) <= |buf|
    requires var n := Uint32(buf[pos + HashLen..pos + HeaderLen]);
      GetChecksum(h, buf[pos + HashLen..pos + HeaderLen], buf[pos + HeaderLen..pos + HeaderLen + n])
        != buf[pos..pos + HashLen]
    ensures Scan(h, buf[pos..]) == ScanResult(0, 0)
  {
    var rest := buf[pos..];
    var n := Uint32(buf[pos + HashLen..pos + HeaderLen]);
    assert rest[..HashLen] == buf[pos..pos + HashLen];
    assert rest[HashLen..HeaderLen] == buf[pos + HashLen..pos + HeaderLen];
    assert rest[HeaderLen..HeaderLen + n] == buf[pos + HeaderLen..pos + HeaderLen + n];
  }

  /** Where the scan stops after the frames of `values`, it reports their
      number and the offset where they end. */
  lemma ScanStopsAfter(h: Hasher, buf: seq<byte>, pos: nat, values: seq<seq<byte>>)
    requires AllStorable(values) && pos <= |buf| && buf[..pos] == Frames(h, values)
    requires Scan(h, buf[pos..]) == ScanResult(0, 0)
    ensures Scan(h, buf) == ScanResult(|values|, pos)
  {
    assert buf == Frames(h, values) + buf[pos..];
    ScanFramesThen(h, values, buf[pos..]);
  }

  /** The loop reached the end of the buffer: the whole of it was frames. */
  lemma ScanStopsAtEnd(h: Hasher, buf: seq<byte>, values: seq<seq<byte>>)
    requires AllStorable(values) && buf[..|buf|] == Frames(h, values)
    ensures Scan(h, buf) == ScanResult(|values|, |buf|)
  {
    assert buf[..|buf|] == buf;
    ScanValidLog(h, values);
  }

  /** One successful step of the scan loop at offset `pos`: the bytes up to
      the end of the frame read there are the frames of one more value. */
  lemma ScanAdvance(h: Hasher, buf: seq<byte>, pos: nat, values: seq<seq<byte>>)
    requires AllStorable(values) && pos <= |buf| && buf[..pos] == Frames(h, values)
    requires pos + HeaderLen <= |buf|
    requires pos + HeaderLen + Uint32(buf[pos + HashLen..pos + HeaderLen]) <= |buf|
    requires var n := Uint32(buf[pos + HashLen..pos + HeaderLen]);
      GetChecksum(h, buf[pos + HashLen..pos + HeaderLen], buf[pos + HeaderLen..pos + HeaderLen + n])
        == buf[pos..pos + HashLen]
    ensures var next := pos + HeaderLen + Uint32(buf[pos + HashLen..pos + HeaderLen]);
      var value := buf[pos + HeaderLen..next];
      Storable(value) && AllStorable(values + [value]) &&
      buf[..next] == Frames(h, values + [value])
  {
    var lenBytes := buf[pos + HashLen..pos + HeaderLen];
    var n := Uint32(lenBytes);
    var next := pos + HeaderLen + n;
    var value := buf[pos + HeaderLen..next];
    PutUint32OfUint32(lenBytes);
    assert buf[pos..next] == buf[pos..pos + HashLen] + lenBytes + value;
    assert buf[pos..next] == EncodeFrame(h, value);
    FramesAppend(h, values, value);
    assert buf[..next] == buf[..pos] + buf[pos..next];
  }

  lemma FramesCons(h: Hasher, value: seq<byte>, values: seq<seq<byte>>)
    requires Storable(value) && AllStorable(values)
    ensures AllStorable([value] + values)
    ensures Frames(h, [value] + values) == EncodeFrame(h, value) + Frames(h, values)
  {
    var vs := [value] + values;
    assert vs[1..] == values;
    forall i | 0 <= i < |vs| ensures Storable(vs[i]) {
      if i > 0 { assert vs[i] == values[i - 1]; }
    }
  }

  /** The bytes the scan keeps are exactly the frames of the recovered values,
      one per counted record: every byte range considered valid is a prefix of
      frames that each re-validate. */
  lemma {:induction false} ScanKeepsFramesOfRecovered(h: Hasher, buf: seq<byte>)
    ensures |RecoveredValues(h, buf)| == Scan(h, buf).count
    ensures Frames(h, RecoveredValues(h, buf)) == buf[..Scan(h, buf).lastValidPos]
    decreases |buf|
  {
    if |buf| != 0 {
      match DecodeFrame(h, buf)
      case Frame(value, size) =>
        ScanKeepsFramesOfRecovered(h, buf[size..]);
        FramesCons(h, value, RecoveredValues(h, buf[size..]));
      case _ =>
    }
  }

  /** Scanning N well-formed frames followed by anything counts the N frames
      and then goes on as the scan of what follows would: frames wholly before
      a damaged frame are always counted. */
  lemma {:induction false} ScanFramesThen(h: Hasher, values: seq<seq<byte>>, rest: seq<byte>)
    requires AllStorable(values)
    ensures Scan(h, Frames(h, values) + rest)
         == ScanResult(|values| + Scan(h, rest).count,
                       |Frames(h, values)| + Scan(h, rest).lastValidPos)
    decreases |values|
  {
    if values == [] {
      assert Frames(h, values) + rest == rest;
    } else {
      AllStorableSlice(values, 1, |values|);
      var frame, more := EncodeFrame(h, values[0]), Frames(h, values[1..]);
      assert Frames(h, values) == frame + more;
      AppendAssoc(frame, more, rest);
      ScanFramesThen(h, values[1..], rest);
      ScanCons(h, values[0], more + rest);
    }
  }

  /** A log made only of well-formed frames is accepted whole: count N,
      lastValidPos == file size, so nothing is truncated. */
  lemma ScanValidLog(h: Hasher, values: seq<seq<byte>>)
    requires AllStorable(values)
    ensures Scan(h, Frames(h, values)) == ScanResult(|values|, |Frames(h, values)|)
  {
    ScanFramesThen(h, values, []);
    assert Frames(h, values) + [] == Frames(h, values);
  }

  /** The scan stops at the first frame that does not decode: after
      lastValidPos there is either nothing, or a frame that is Incomplete or
      fails its checksum. No resync happens past it. */
  lemma {:induction false} ScanStopsAtFirstBadFrame(h: Hasher, buf: seq<byte>)
    ensures var last := Scan(h, buf).lastValidPos;
      last == |buf| || !DecodeFrame(h, buf[last..]).Frame?
    decreases |buf|
  {
    if |buf| != 0 {
      match DecodeFrame(h, buf)
      case Frame(_, size) =>
        var tail := buf[size..];
        ScanStopsAtFirstBadFrame(h, tail);
        var last := Scan(h, tail).lastValidPos;
        assert Scan(h, buf).lastValidPos == size + last;
        assert tail[last..] == buf[size + last..];
      case _ =>
        assert Scan(h, buf).lastValidPos == 0;
        assert buf[0..] == buf;
    }
  }

  /** The two facts above determine the scan: if the file is N frames
      followed by nothing or by a frame that does not decode, the scan counts
      exactly N and stops at the end of frame N. */
  lemma ScanCountsFramesBeforeFirstBadFrame(h: Hasher, values: seq<seq<byte>>, rest: seq<byte>)
    requires AllStorable(values)
    requires rest == [] || !DecodeFrame(h, rest).Frame?
    ensures Scan(h, Frames(h, values) + rest) == ScanResult(|values|, |Frames(h, values)|)
  {
    ScanFramesThen(h, values, rest);
  }

  /** Frames before a damaged spot are always counted, and the scan stops
      right after them exactly when what follows does not decode as a frame:
      the count is |values| if and only if the rest is empty or its first
      frame is incomplete or fails its checksum. */
  lemma ScanCountsAtLeastFramesBefore(h: Hasher, values: seq<seq<byte>>, rest: seq<byte>)
    requires AllStorable(values)
    ensures Scan(h, Frames(h, values) + rest).count >= |values|
    ensures Scan(h, Frames(h, values) + rest).count == |values|
        <==> rest == [] || !DecodeFrame(h, rest).Frame?
  {
    ScanFramesThen(h, values, rest);
  }

  /** Recovery is idempotent: rescanning the truncated file gives the same
      count and accepts the whole of it. */
  lemma ScanIdempotent(h: Hasher, buf: seq<byte>)
    ensures Scan(h, buf[..Scan(h, buf).lastValidPos]) == Scan(h, buf)
  {
    ScanKeepsFramesOfRecovered(h, buf);
    ScanValidLog(h, RecoveredValues(h, buf));
  }

  /** N intact frames followed by a proper, non-empty prefix of one more
      frame (a crash mid-write): count N, truncated to the end of frame N. */
  lemma ScanTornTail(h: Hasher, values: seq<seq<byte>>, value: seq<byte>, k: nat)
    requires AllStorable(values) && Storable(value)
    requires 0 < k < |EncodeFrame(h, value)|
    ensures Scan(h, Frames(h, values) + EncodeFrame(h, value)[..k])
         == ScanResult(|values|, |Frames(h, values)|)
  {
    TornFrameIncomplete(h, value, k);
    ScanFramesThen(h, values, EncodeFrame(h, value)[..k]);
  }

  /** storeCorruptedValue on a well-formed log: append the frame of
      `value`, then remove the last K bytes, K reaching into that frame but
      no further. The scan loses exactly the damaged record: it counts the
      earlier ones and stops where they end. */
  lemma {:induction false} ScanAfterRemovingTail(h: Hasher, values: seq<seq<byte>>, value: seq<byte>, k: nat)
    requires AllStorable(values) && Storable(value)
    requires 0 < k <= |EncodeFrame(h, value)|
    ensures var stored := Frames(h, values) + EncodeFrame(h, value);
      Scan(h, stored[..|stored| - k]) == ScanResult(|values|, |Frames(h, values)|)
  {
    var front, frame := Frames(h, values), EncodeFrame(h, value);
    DropTail(front, frame, k);
    if k == |frame| {
      assert front + frame[..0] == front;
      ScanValidLog(h, values);
    } else {
      ScanTornTail(h, values, value, |frame| - k);
    }
  }

  /** The scan loop of readLogFromFile: walk `rawFileBytes` from offset 0,
      each iteration reading the checksum, the length field and the payload
      and breaking out as soon as one of them runs past the end or the
      checksum does not match. `count` is what the source adds to
      maxLogIndex. */
  method ScanFile(hash: Hasher, rawFileBytes: seq<byte>) returns (count: nat, lastValidPos: nat)
    ensures ScanResult(count, lastValidPos) == Scan(hash, rawFileBytes)
  {
    var filesize := |rawFileBytes|;
    var pos := 0;
    count, lastValidPos := 0, 0;
    var checksum: seq<byte>, rawDataLen: seq<byte>;
    ghost var accepted: seq<seq<byte>> := [];
    while pos < filesize
      invariant pos == lastValidPos <= filesize
      invariant AllStorable(accepted) && count == |accepted|
      invariant rawFileBytes[..pos] == Frames(hash, accepted)
      decreases filesize - pos
    {
      // the checksum
      if pos + HashLen <= filesize {
        checksum := rawFileBytes[pos..pos + HashLen];
      } else {
        ScanStopsShortHeader(hash, rawFileBytes, lastValidPos);
        ScanStopsAfter(hash, rawFileBytes, lastValidPos, accepted);
        return;
      }
      pos := pos + HashLen;
      // the length field
      if pos + IntLen <= filesize {
        rawDataLen := rawFileBytes[pos..pos + IntLen];
      } else {
        ScanStopsShortHeader(hash, rawFileBytes, lastValidPos);
        ScanStopsAfter(hash, rawFileBytes, lastValidPos, accepted);
        return;
      }
      pos := pos + IntLen;
      var dataLenInt := Uint32(rawDataLen);
      // the payload
      var dataContent: seq<byte>;
      if pos + dataLenInt <= filesize {
        dataContent := rawFileBytes[pos..pos + dataLenInt];
      } else {
        ScanStopsShortPayload(hash, rawFileBytes, lastValidPos);
        ScanStopsAfter(hash, rawFileBytes, lastValidPos, accepted);
        return;
      }
      var computedChecksum := GetChecksum(hash, rawDataLen, dataContent);
      if computedChecksum != checksum {
        ScanStopsMismatch(hash, rawFileBytes, lastValidPos);
        ScanStopsAfter(hash, rawFileBytes, lastValidPos, accepted);
        return;
      }
      ScanAdvance(hash, rawFileBytes, lastValidPos, accepted);
      accepted := accepted + [dataContent];
      count := count + 1;
      pos := pos + dataLenInt;
      lastValidPos := pos;
    }
    ScanStopsAtEnd(hash, rawFileBytes, accepted);
  }
}
