/** The log handle of persistlog.go: the log file, modelled as the bytes it
    holds, and the count of valid records (maxLogIndex). Opening runs the
    recovery scan; StoreValue appends one frame. */
module PersistLog {
  import opened Bytes
  import opened Codec
  import opened Recovery

  /** The content of a file after os.Truncate(name, size): cut to `size`
      bytes, or extended with zero bytes when `size` is larger. */
  function Truncated(content: seq<byte>, size: nat): (r: seq<byte>)
    ensures |r| == size
    ensures size <= |content| ==> r == content[..size]
    ensures size >= |content| ==> r[..|content|] == content
    ensures forall i | |content| <= i < size :: r[i] == 0
  {
    if size <= |content| then content[..size]
    else content + seq(size - |content|, _ => 0)
  }

  /** The error storeCorruptedValue reports. */
  datatype StoreError = CannotRemove(bytesToRemove: int, currentSize: nat)

  datatype Outcome = Pass | Fail(error: StoreError)

  class PersistentLog {
    /** The checksum function (xxhash in the source). */
    const hash: Hasher
    /** The path the handle was opened with. */
    const filename: string
    /** The bytes of the log file. */
    var file: seq<byte>
    /** The number of records known to be stored and valid. */
    var maxLogIndex: int
    /** The payloads whose frames make up `file`, in order. */
    ghost var Records: seq<seq<byte>>

    /** The file is exactly the frames of the records, and the counter
        counts them. Established by opening and kept by StoreValue;
        StoreCorruptedValue, a test helper, breaks it on purpose. */
    ghost predicate Valid()
      reads this
    {
      AllStorable(Records) && file == Frames(hash, Records) && maxLogIndex == |Records|
    }

    /** NewPeristentLog: open (creating if absent) the file whose current
        content is `disk` and recover it. A file that does not exist yet is
        passed as `disk == []`. */
    constructor (hash: Hasher, filename: string, disk: seq<byte>)
      ensures Valid()
      ensures this.hash == hash && this.filename == filename
      ensures maxLogIndex == Scan(hash, disk).count
      ensures file == disk[..Scan(hash, disk).lastValidPos]
      ensures Records == RecoveredValues(hash, disk)
      ensures disk == [] ==> maxLogIndex == 0 && file == []
    {
      this.hash := hash;
      this.filename := filename;
      file := disk;
      maxLogIndex := 0;
      Records := [];
      new;
      ReadLogFromFile();
    }

    /** Append the frame of `value` to the file and count it. The write and
        the sync are taken to succeed, as the source ignores their errors. */
    method StoreValue(value: seq<byte>)
      requires Storable(value)
      modifies this
      ensures file == old(file) + EncodeFrame(hash, value)
      ensures maxLogIndex == old(maxLogIndex) + 1
      ensures Records == old(Records) + [value]
      ensures old(Valid()) ==> Valid()
    {
      var dataLen := |value|;
      var dataLenBuf := PutUint32(dataLen);
      var checksum := GetChecksum(hash, dataLenBuf, value);
      var msgToWrite := checksum + dataLenBuf;
      msgToWrite := msgToWrite + value;
      file := file + msgToWrite;
      maxLogIndex := maxLogIndex + 1;
      if AllStorable(Records) {
        FramesAppend(hash, Records, value);
      }
      Records := Records + [value];
    }

    /** MaxLogIndex (GetMaxLogIndex in PersistentLog.go): the number of
        records counted so far; changes nothing. */
    method MaxLogIndex() returns (index: int)
      ensures index == maxLogIndex
      ensures Valid() ==> index == |Records| && file == Frames(hash, Records)
    {
      index := maxLogIndex;
    }

    /** The recovery scan: walk the file frame by frame from offset 0, count
        every frame that is complete and passes its checksum, stop at the
        first one that does not, and cut the file back to the end of the last
        good frame. */
    method ReadLogFromFile()
      modifies this
      ensures maxLogIndex == old(maxLogIndex) + Scan(hash, old(file)).count
      ensures file == old(file)[..Scan(hash, old(file)).lastValidPos]
      ensures Scan(hash, old(file)).lastValidPos == |old(file)| ==> file == old(file)
      ensures Records == RecoveredValues(hash, old(file)) && |Records| == Scan(hash, old(file)).count
      ensures AllStorable(Records) && file == Frames(hash, Records)
    {
      var rawFileBytes := file;
      var filesize := |rawFileBytes|;
      var count, lastValidPos := ScanFile(hash, rawFileBytes);
      maxLogIndex := maxLogIndex + count;
      // Clean up entries that are invalid or come after an invalid one.
      // persistlog.go truncates the path "log.dat" here, not p.filename, so
      // for any other file name its own bytes are left as they were (see
      // RecoverAsWritten below); the model truncates the handle's own file.
      if lastValidPos < filesize {
        file := Truncated(rawFileBytes, lastValidPos);
      } else {
        assert rawFileBytes[..lastValidPos] == rawFileBytes;
      }
      Records := RecoveredValues(hash, rawFileBytes);
      ScanKeepsFramesOfRecovered(hash, rawFileBytes);
    }

    /** Test helper: store `value`, then cut `bytesToRemove` bytes off the end
        of the file, damaging the frame just written. The record is counted
        either way. A negative `bytesToRemove` grows the file with zero
        bytes, as os.Truncate does. */
    method StoreCorruptedValue(value: seq<byte>, bytesToRemove: int) returns (outcome: Outcome)
      requires Storable(value)
      modifies this
      ensures maxLogIndex == old(maxLogIndex) + 1
      ensures Records == old(Records) + [value]
      ensures var stored := old(file) + EncodeFrame(hash, value);
        if bytesToRemove > |stored| then
          outcome == Fail(CannotRemove(bytesToRemove, |stored|)) && file == stored
        else
          outcome == Pass && file == Truncated(stored, |stored| - bytesToRemove)
    {
      StoreValue(value);
      var currentSize := |file|;
      var newSize := currentSize - bytesToRemove;
      if newSize < 0 {
        return Fail(CannotRemove(bytesToRemove, currentSize));
      }
      file := Truncated(file, newSize);
      outcome := Pass;
    }
  }

  /** What reopening leaves behind: the count the handle starts with and the
      content of the log's own file. */
  datatype Reopened = Reopened(count: nat, file: seq<byte>)

  /** The path persistlog.go truncates during recovery, whatever the log's
      own file name. */
  const LegacyPath: string := "log.dat"

  /** Opening as persistlog.go is written: the scan runs over the log's own
      file, but the truncation goes to "log.dat", so the log's file keeps its
      bad tail unless it happens to be called "log.dat". A name stands for
      the file it opens: "./log.dat", or an absolute path to log.dat in the
      working directory, is the same file as "log.dat" to os.Truncate, which
      this comparison of strings does not capture. */
  function RecoverAsWritten(hash: Hasher, filename: string, disk: seq<byte>): (r: Reopened)
    ensures r.count == Scan(hash, disk).count
    ensures filename == LegacyPath ==> r.file == disk[..Scan(hash, disk).lastValidPos]
    ensures filename != LegacyPath ==> r.file == disk
  {
    var scan := Scan(hash, disk);
    if filename == LegacyPath && scan.lastValidPos < |disk| then
      Reopened(scan.count, Truncated(disk, scan.lastValidPos))
    else
      Reopened(scan.count, disk)
  }

  /** A bad tail: a complete header whose length field claims 256 payload
      bytes, more than can follow it here. */
  const BadTail: seq<byte> := [0, 0, 0, 0, 0, 0, 0, 0, 0, 0, 1, 0]

  /** As written, a record stored after reopening a damaged log is lost at
      the next reopen: open a file "data.log" holding one frame and a bad
      tail (count 1, tail kept), store one more value (count 2), reopen: the
      scan still stops at the old tail and counts 1. */
  lemma AsWrittenLosesStoreAfterReopen(hash: Hasher)
    ensures var disk := EncodeFrame(hash, []) + BadTail;
      var first := RecoverAsWritten(hash, "data.log", disk);
      first == Reopened(1, disk) &&
      RecoverAsWritten(hash, "data.log", first.file + EncodeFrame(hash, [])).count == 1
  {
    var frame := EncodeFrame(hash, []);
    var disk := frame + BadTail;
    assert Uint32(BadTail[HashLen..HeaderLen]) == 0x100;
    ScanCons(hash, [], BadTail);
    var later := disk + frame;
    assert later == frame + (BadTail + frame);
    assert (BadTail + frame)[HashLen..HeaderLen] == BadTail[HashLen..HeaderLen];
    ScanCons(hash, [], BadTail + frame);
  }

  /** With the truncation applied to the log's own file, every store made
      after a reopen is counted at the next reopen: the recovered file
      followed by N new frames scans as the old count plus N. */
  lemma ReopenCountsEveryStore(hash: Hasher, disk: seq<byte>, values: seq<seq<byte>>)
    requires AllStorable(values)
    ensures var kept := disk[..Scan(hash, disk).lastValidPos];
      Scan(hash, kept + Frames(hash, values))
        == ScanResult(Scan(hash, disk).count + |values|, |kept| + |Frames(hash, values)|)
  {
    var recovered := RecoveredValues(hash, disk);
    ScanKeepsFramesOfRecovered(hash, disk);
    ScanFramesThen(hash, recovered, Frames(hash, values));
    ScanValidLog(hash, values);
  }

  /** TestStoreValue: storing N values into a fresh log reports the indices
      1..N, and reopening the resulting file reports N. */
  method StoreThenReopen(hash: Hasher, filename: string, values: seq<seq<byte>>)
    returns (indices: seq<int>, reopened: int)
    requires AllStorable(values)
    ensures |indices| == |values|
    ensures forall i | 0 <= i < |indices| :: indices[i] == i + 1
    ensures reopened == |values|
  {
    var plog := CreateEmpty(hash, filename);
    indices := [];
    for i := 0 to |values|
      invariant plog.Valid() && plog.hash == hash && plog.Records == values[..i]
      invariant |indices| == i
      invariant forall j | 0 <= j < i :: indices[j] == j + 1
    {
      plog.StoreValue(values[i]);
      assert values[..i + 1] == values[..i] + [values[i]];
      var index := plog.MaxLogIndex();
      indices := indices + [index];
    }
    assert values[..|values|] == values;
    ScanValidLog(hash, values);
    reopened := Reopen(hash, filename, plog.file);
  }

  /** The bytes from the damaged frame on, in the file CorruptThenReopen
      leaves: the frame of the value at position `corruptIndex` without its
      last `bytesToRemove` bytes, then the frames of the values after it. */
  ghost function Damaged(hash: Hasher, values: seq<seq<byte>>, corruptIndex: nat, bytesToRemove: nat): (rest: seq<byte>)
    requires AllStorable(values)
    requires 1 <= corruptIndex <= |values|
    requires bytesToRemove <= HeaderLen
    ensures |rest| >= HeaderLen + |values[corruptIndex - 1]| - bytesToRemove
  {
    AllStorableSlice(values, corruptIndex, corruptIndex);
    var frame := EncodeFrame(hash, values[corruptIndex - 1]);
    frame[..|frame| - bytesToRemove] + Frames(hash, values[corruptIndex..])
  }

  /** The scan, reaching `rest`, stops there: nothing is left, or the
      first frame is incomplete or fails its checksum. */
  predicate StopsAt(hash: Hasher, rest: seq<byte>)
  {
    rest == [] || !DecodeFrame(hash, rest).Frame?
  }

  /** The reopened count of the damaged log. */
  lemma ScanCorruptedLog(hash: Hasher, values: seq<seq<byte>>, corruptIndex: nat, bytesToRemove: nat, file: seq<byte>)
    requires AllStorable(values)
    requires 1 <= corruptIndex <= |values|
    requires bytesToRemove <= HeaderLen
    requires AllStorable(values[..corruptIndex - 1]) && AllStorable(values[corruptIndex..])
    requires var frame := EncodeFrame(hash, values[corruptIndex - 1]);
      file == Frames(hash, values[..corruptIndex - 1]) + frame[..|frame| - bytesToRemove]
        + Frames(hash, values[corruptIndex..])
    ensures Scan(hash, file).count >= corruptIndex - 1
    ensures Scan(hash, file).count == corruptIndex - 1
        <==> StopsAt(hash, Damaged(hash, values, corruptIndex, bytesToRemove))
  {
    var frame := EncodeFrame(hash, values[corruptIndex - 1]);
    var front := Frames(hash, values[..corruptIndex - 1]);
    var rest := Damaged(hash, values, corruptIndex, bytesToRemove);
    AppendAssoc(front, frame[..|frame| - bytesToRemove], Frames(hash, values[corruptIndex..]));
    assert file == front + rest;
    ScanCountsAtLeastFramesBefore(hash, values[..corruptIndex - 1], rest);
  }

  /** Store each of `values` in turn, as the loops of the tests do. */
  method StoreEach(plog: PersistentLog, values: seq<seq<byte>>)
    requires AllStorable(values)
    modifies plog
    ensures plog.file == old(plog.file) + Frames(plog.hash, values)
    ensures plog.maxLogIndex == old(plog.maxLogIndex) + |values|
  {
    ghost var start := plog.file;
    for i := 0 to |values|
      invariant AllStorable(values[..i])
      invariant plog.file == start + Frames(plog.hash, values[..i])
      invariant plog.maxLogIndex == old(plog.maxLogIndex) + i
    {
      plog.StoreValue(values[i]);
      FramesAppendAfter(plog.hash, start, values[..i], values[i]);
      assert values[..i + 1] == values[..i] + [values[i]];
    }
    assert values[..|values|] == values;
  }

  /** TestCorruption: store the values into a fresh log, the one at
      position `corruptIndex` (counting from 1) with storeCorruptedValue so
      that its last `bytesToRemove` bytes are cut off, then reopen. The frames
      before the damaged one are always counted; the count is exactly
      corruptIndex - 1, as the test expects, if and only if the bytes from the
      damaged frame on do not decode as a frame. With the payload cut short
      and later frames behind it, that rests on the hash telling the shifted
      bytes apart. */
  method CorruptThenReopen(hash: Hasher, filename: string, values: seq<seq<byte>>,
                           corruptIndex: nat, bytesToRemove: nat)
    returns (outcome: Outcome, reopened: int)
    requires AllStorable(values)
    requires 1 <= corruptIndex <= |values|
    requires bytesToRemove <= HeaderLen
    ensures outcome == Pass
    ensures reopened >= corruptIndex - 1
    ensures reopened == corruptIndex - 1 <==> StopsAt(hash, Damaged(hash, values, corruptIndex, bytesToRemove))
  {
    var file;
    outcome, file := StoreWithCorruption(hash, filename, values, corruptIndex, bytesToRemove);
    ScanCorruptedLog(hash, values, corruptIndex, bytesToRemove, file);
    reopened := Reopen(hash, filename, file);
  }

  /** The writing half of TestCorruption: the file it leaves. */
  method StoreWithCorruption(hash: Hasher, filename: string, values: seq<seq<byte>>,
                             corruptIndex: nat, bytesToRemove: nat)
    returns (outcome: Outcome, file: seq<byte>)
    requires AllStorable(values)
    requires 1 <= corruptIndex <= |values|
    requires bytesToRemove <= HeaderLen
    ensures outcome == Pass
    ensures AllStorable(values[..corruptIndex - 1]) && AllStorable(values[corruptIndex..])
    ensures var frame := EncodeFrame(hash, values[corruptIndex - 1]);
      file == Frames(hash, values[..corruptIndex - 1]) + frame[..|frame| - bytesToRemove]
        + Frames(hash, values[corruptIndex..])
  {
    var c := corruptIndex - 1;
    AllStorableSlice(values, c, c + 1);
    var plog := CreateEmpty(hash, filename);
    StoreEach(plog, values[..c]);
    ghost var front, frame := Frames(hash, values[..c]), EncodeFrame(hash, values[c]);
    assert plog.file == front;
    outcome := plog.StoreCorruptedValue(values[c], bytesToRemove);
    assert plog.file == Truncated(front + frame, |front + frame| - bytesToRemove);
    DropTail(front, frame, bytesToRemove);
    assert plog.file == front + frame[..|frame| - bytesToRemove];
    StoreEach(plog, values[c + 1..]);
    file := plog.file;
  }

  /** Open a log on an existing empty (or absent) file, as both tests do
      first on the file os.CreateTemp made. */
  method CreateEmpty(hash: Hasher, filename: string) returns (plog: PersistentLog)
    ensures fresh(plog)
    ensures plog.Valid() && plog.hash == hash && plog.file == [] && plog.Records == []
  {
    plog := new PersistentLog(hash, filename, []);
    assert plog.Records == RecoveredValues(hash, []);
  }

  /** Open a second handle on the file with content `disk` and read its
      count, as both tests do at the end. */
  method Reopen(hash: Hasher, filename: string, disk: seq<byte>) returns (count: int)
    ensures count == Scan(hash, disk).count
  {
    var plog := new PersistentLog(hash, filename, disk);
    count := plog.MaxLogIndex();
  }
}
