/** The older variant of the log in PersistentLog.go. It differs from
    persistlog.go in three places only:
      - the file is always the fixed path "log.dat", so the recovery
        truncation hits the log's own file;
      - getChecksum takes its arguments as (value, valueLen), yet still hashes
        valueLen ++ value, so frames and the scan are byte for byte the same;
      - the count is read with GetMaxLogIndex, and there is no
        storeCorruptedValue.
    The codec and the scan are the shared ones of Codec and Recovery. */
module LegacyLog {
  import opened Bytes
  import Codec
  import opened Recovery

  /** The one path this variant reads, writes and truncates. */
  const LogPath: string := "log.dat"

  /** getChecksum(value, valueLen) of the variant: the same bytes are hashed,
      in the same order, as by the newer getChecksum(valueLen, value). */
  function GetChecksum(h: Codec.Hasher, value: seq<byte>, valueLen: seq<byte>): (checksum: seq<byte>)
    ensures checksum == Codec.GetChecksum(h, valueLen, value)
    ensures |checksum| == Codec.HashLen
  {
    var msgToHash := valueLen + value;
    h(msgToHash)
  }

  class PersistentLog {
    /** The checksum function (xxhash in the source). */
    const hash: Codec.Hasher
    /** The bytes of "log.dat". */
    var file: seq<byte>
    /** The number of records known to be stored and valid. */
    var maxLogIndex: int
    /** The payloads whose frames make up `file`, in order. */
    ghost var Records: seq<seq<byte>>

    /** The file is exactly the frames of the records, and the counter
        counts them. */
    ghost predicate Valid()
      reads this
    {
      Codec.AllStorable(Records) && file == Codec.Frames(hash, Records) && maxLogIndex == |Records|
    }

    /** NewPeristentLog(): open "log.dat", whose current content is `disk`
        (`[]` when it does not exist yet), and recover it. */
    constructor (hash: Codec.Hasher, disk: seq<byte>)
      ensures Valid()
      ensures this.hash == hash
      ensures maxLogIndex == Scan(hash, disk).count
      ensures file == disk[..Scan(hash, disk).lastValidPos]
      ensures Records == RecoveredValues(hash, disk)
      ensures disk == [] ==> maxLogIndex == 0 && file == []
    {
      this.hash := hash;
      file := disk;
      maxLogIndex := 0;
      Records := [];
      new;
      ReadLogFromFile();
    }

    /** Append the frame of `value`, built with the variant's checksum call,
        and count it. The frame is the one the newer StoreValue writes. */
    method StoreValue(value: seq<byte>)
      requires Codec.Storable(value)
      modifies this
      ensures file == old(file) + Codec.EncodeFrame(hash, value)
      ensures maxLogIndex == old(maxLogIndex) + 1
      ensures Records == old(Records) + [value]
      ensures old(Valid()) ==> Valid()
    {
      var dataLen := |value|;
      var dataLenbuf := PutUint32(dataLen);
      var checksum := GetChecksum(hash, value, dataLenbuf);
      var msgToWrite := checksum + dataLenbuf;
      msgToWrite := msgToWrite + value;
      file := file + msgToWrite;
      maxLogIndex := maxLogIndex + 1;
      if Codec.AllStorable(Records) {
        Codec.FramesAppend(hash, Records, value);
      }
      Records := Records + [value];
    }

    /** GetMaxLogIndex: the number of records counted so far; changes
        nothing. */
    method GetMaxLogIndex() returns (index: int)
      ensures index == maxLogIndex
      ensures Valid() ==> index == |Records| && file == Codec.Frames(hash, Records)
    {
      index := maxLogIndex;
    }

    /** The recovery scan of the variant. Its loop calls getChecksum with the
        swapped argument order, which GetChecksum above shows hashes the same
        bytes, so it is the shared ScanFile. The truncation goes to
        "log.dat", which here is the log's own file. */
    method ReadLogFromFile()
      modifies this
      ensures maxLogIndex == old(maxLogIndex) + Scan(hash, old(file)).count
      ensures file == old(file)[..Scan(hash, old(file)).lastValidPos]
      ensures Scan(hash, old(file)).lastValidPos == |old(file)| ==> file == old(file)
      ensures Records == RecoveredValues(hash, old(file)) && |Records| == Scan(hash, old(file)).count
      ensures Codec.AllStorable(Records) && file == Codec.Frames(hash, Records)
    {
      var rawFileBytes := file;
      var filesize := |rawFileBytes|;
      var count, lastValidPos := ScanFile(hash, rawFileBytes);
      maxLogIndex := maxLogIndex + count;
      if lastValidPos < filesize {
        file := rawFileBytes[..lastValidPos];
      } else {
        assert rawFileBytes[..lastValidPos] == rawFileBytes;
      }
      Records := RecoveredValues(hash, rawFileBytes);
      ScanKeepsFramesOfRecovered(hash, rawFileBytes);
    }
  }

  /** Both variants write the same bytes: a sequence of stores into the
      variant's log leaves exactly the frames the newer log writes, and
      reopening counts them all. */
  method StoreThenReopen(hash: Codec.Hasher, values: seq<seq<byte>>)
    returns (file: seq<byte>, reopened: int)
    requires Codec.AllStorable(values)
    ensures file == Codec.Frames(hash, values)
    ensures reopened == |values|
  {
    var plog := new PersistentLog(hash, []);
    for i := 0 to |values|
      invariant plog.Valid() && plog.hash == hash && plog.Records == values[..i]
    {
      plog.StoreValue(values[i]);
      assert values[..i + 1] == values[..i] + [values[i]];
    }
    assert values[..|values|] == values;
    file := plog.file;
    ScanValidLog(hash, values);
    var plog2 := new PersistentLog(hash, file);
    reopened := plog2.GetMaxLogIndex();
  }
}
