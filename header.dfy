/** What `Disassembler` does with the raw bytes of a compiled module before
    it walks the code: `read` (pycd.py:53-60) compares a prefix of the file
    with the interpreter's magic number and only prints a warning on a
    mismatch; `load` (pycd.py:63-64) deserializes everything from byte 16 on;
    `__init__` (pycd.py:49) hands the first 12 bytes to `meta_analysis`,
    which reads the timestamp field from bytes 8 to 12 (pycd.py:69). */
module Header {

  newtype byte = x: int | 0 <= x < 256

  /** `load` deserializes `bytes[16:]`. */
  const PayloadStart: nat := 16
  /** `__init__` passes `bytes[:12]` to `meta_analysis`. */
  const MetadataEnd: nat := 12
  /** `meta_analysis` unpacks `header[8:12]` as the compile timestamp. */
  const TimestampStart: nat := 8
  const TimestampEnd: nat := 12

  /** Python's `s[lo:hi]` for non-negative bounds: both bounds are clamped
      to the length of `s`, so a slice never fails and may come out short
      or empty. */
  function Slice<T>(s: seq<T>, lo: nat, hi: nat): (r: seq<T>)
    ensures |r| == if hi <= lo || |s| <= lo then 0 else (if hi <= |s| then hi else |s|) - lo
    ensures forall i :: 0 <= i < |r| ==> r[i] == s[lo + i]
  {
    var h := if hi < |s| then hi else |s|;
    var l := if lo < h then lo else h;
    s[l..h]
  }

  /** The file as `read` returns it and whether it printed
      "Warning: Magic Number does not match!". */
  datatype ReadResult = ReadResult(bytes: seq<byte>, magicMismatch: bool)

  /** `read` with the file's contents given: the result is the whole file
      whatever the magic number says, and the warning is printed exactly
      when the file does not start with the magic number. */
  function Read(file: seq<byte>, magic: seq<byte>): (r: ReadResult)
    ensures r.bytes == file
    ensures r.magicMismatch <==> !(magic <= file)
  {
    var prefix := Slice(file, 0, |magic|);
    assert magic <= file ==> prefix == magic;
    ReadResult(file, prefix != magic)
  }

  /** The bytes `load` gives to the deserializer: `bytes[16:]`. */
  function Payload(bytes: seq<byte>): seq<byte>
  {
    Slice(bytes, PayloadStart, |bytes|)
  }

  /** `load(bytes)`, with the deserializer `marshal.loads` as a parameter. */
  function Load<V>(bytes: seq<byte>, loads: seq<byte> -> V): V
  {
    loads(Payload(bytes))
  }

  /** The payload is everything after the 16-byte header, and nothing when
      the file is shorter than the header: the slice itself never fails, so
      a short file reaches the deserializer as an empty payload, which
      `marshal.loads` rejects. */
  lemma PayloadSpec(bytes: seq<byte>)
    ensures |bytes| >= PayloadStart ==> Payload(bytes) == bytes[PayloadStart..]
    ensures |bytes| < PayloadStart ==> Payload(bytes) == []
    ensures Payload(bytes) == [] <==> |bytes| <= PayloadStart
    ensures Slice(bytes, 0, PayloadStart) + Payload(bytes) == bytes
  {
    if |bytes| >= PayloadStart {
      assert bytes == bytes[..PayloadStart] + bytes[PayloadStart..];
    }
  }

  /** What `meta_analysis` reads from the header: the timestamp field. */
  datatype Metadata = Metadata(timestampField: seq<byte>)

  /** `meta_analysis(header, co)` as far as the header goes. */
  function MetaAnalysis(header: seq<byte>): Metadata
  {
    Metadata(Slice(header, TimestampStart, TimestampEnd))
  }

  /** The header `__init__` passes on: `bytes[:12]`. */
  function MetaHeader(bytes: seq<byte>): seq<byte>
  {
    Slice(bytes, 0, MetadataEnd)
  }

  /** The timestamp that `__init__` ends up unpacking is bytes 8 to 12 of the
      file: four bytes when the file has them, fewer otherwise. */
  lemma TimestampSpec(bytes: seq<byte>)
    ensures MetaAnalysis(MetaHeader(bytes)).timestampField == Slice(bytes, TimestampStart, TimestampEnd)
    ensures |bytes| >= TimestampEnd ==> MetaAnalysis(MetaHeader(bytes)).timestampField == bytes[8..12]
    ensures |MetaAnalysis(MetaHeader(bytes)).timestampField| <= 4
  {
    var t := MetaAnalysis(MetaHeader(bytes)).timestampField;
    var s := Slice(bytes, TimestampStart, TimestampEnd);
    assert |t| == |s|;
    forall i | 0 <= i < |t| ensures t[i] == s[i] {
    }
    if |bytes| >= TimestampEnd {
      assert |s| == 4;
      forall i | 0 <= i < 4 ensures s[i] == bytes[8..12][i] {
      }
    }
  }

  /** Bytes 12 to 16 of the file reach neither the deserializer nor the
      metadata: two files that differ only there are read alike. */
  lemma GapUnread(a: seq<byte>, b: seq<byte>)
    requires |a| == |b|
    requires forall i :: 0 <= i < |a| && !(MetadataEnd <= i < PayloadStart) ==> a[i] == b[i]
    ensures Payload(a) == Payload(b)
    ensures MetaHeader(a) == MetaHeader(b)
    ensures MetaAnalysis(MetaHeader(a)) == MetaAnalysis(MetaHeader(b))
  {
    var pa, pb := Payload(a), Payload(b);
    assert |pa| == |pb|;
    forall i | 0 <= i < |pa| ensures pa[i] == pb[i] {
      assert pa[i] == a[PayloadStart + i];
    }
    var ha, hb := MetaHeader(a), MetaHeader(b);
    assert |ha| == |hb|;
    forall i | 0 <= i < |ha| ensures ha[i] == hb[i] {
      assert ha[i] == a[i];
    }
  }
}
