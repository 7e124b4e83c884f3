/**
 Verified sources: one descriptor, hashed in full, held open, hashed again before it is
 streamed, and streamed to a destination in exactly the expected number of bytes.
 */
module Images {
  import opened Basics
  import opened Text
  import opened Confirmation
  import opened Streams

  datatype Format = RawFormat | ZstdFormat

  /** SHA-256 and zstd decoding are parameters of everything below. */
  datatype Primitives = Primitives(sha256: seq<Byte> -> Sum, zstd: seq<Byte> -> Stream)

  function Digest(p: Primitives, content: seq<Byte>): string {
    Hex(p.sha256(content))
  }

  /** A digest stands for the 32 bytes of the sum, the high half of each byte first. */
  lemma DigestInFull(p: Primitives, content: seq<Byte>, digest: string)
    ensures Digest(p, content) == digest <==> ValidDigest(digest) && DigestBytes(digest) == p.sha256(content)
  {
    ValidDigestIsLowerHex(digest);
    ValidDigestIsLowerHex(Digest(p, content));
    UnhexUndoesHex(p.sha256(content));
    hide ValidDigest, Hex, Unhex;
    if ValidDigest(digest) {
      HexUndoesUnhex(digest);
    }
  }

  function DigestBytes(digest: string): seq<Byte>
    requires ValidDigest(digest)
  {
    ValidDigestIsLowerHex(digest);
    Unhex(digest)
  }

  /** The frame magic of section 3.1.1 of RFC 8878, in file order. */
  const ZSTD_MAGIC: seq<Byte> := [0x28, 0xb5, 0x2f, 0xfd]

  predicate LeadsWithMagic(content: seq<Byte>) {
    ZSTD_MAGIC <= content
  }

  function FormatOf(content: seq<Byte>): Format {
    if LeadsWithMagic(content) then ZstdFormat else RawFormat
  }

  /** The format is read off the first four bytes. */
  lemma FormatInFull(content: seq<Byte>)
    ensures FormatOf(content) == ZstdFormat <==>
      |content| >= 4 && content[0] == 40 && content[1] == 181 && content[2] == 47 && content[3] == 253
  {
    assert |content| >= 4 ==> content[..4] == [content[0], content[1], content[2], content[3]];
  }

  function Expansion(p: Primitives, format: Format, content: seq<Byte>): Stream {
    if format == RawFormat then Stream(content, true) else p.zstd(content)
  }

  /** An image file and the descriptor on it; its content may be changed from outside between calls. */
  class File {
    var content: seq<Byte>
    var offset: nat
    var open: bool
    const regular: bool

    constructor (content: seq<Byte>, regular: bool)
      ensures this.content == content && this.regular == regular && offset == 0 && !open
    {
      this.content, this.regular, offset, open := content, regular, 0, false;
    }

    /** The bytes between the offset and the end. */
    function Rest(): (r: seq<Byte>)
      reads this
      ensures offset <= |content| ==> content == content[..offset] + r
      ensures offset > |content| ==> r == []
    {
      content[Min(offset, |content|)..]
    }

    /** Reads to the end from the offset, as hashing does. */
    method Drain(events: seq<ReadEvent>) returns (data: seq<Byte>, end: CopyEnd)
      modifies this`offset
      ensures end == Copied ==> data == old(Rest())
      ensures end == CopyFailed ==> !NoReadFails(events)
      ensures Ends(events, |old(Rest())|, COPY_BUFFER_BYTES) ==> end != Blocked
    {
      var reader := new Reader(Stream(Rest(), true));
      data, end := reader.Drain(events);
      offset := offset + reader.pos;
    }

    method Take(want: nat, events: seq<ReadEvent>) returns (data: seq<Byte>, end: CopyEnd)
      modifies this`offset
      ensures end == Copied ==> data == old(Rest())[..Min(want, |old(Rest())|)]
      ensures end == CopyFailed ==> !NoReadFails(events)
      ensures Finishes(events, want, |old(Rest())|, want) ==> end != Blocked
    {
      var reader := new Reader(Stream(Rest(), true));
      data, end := reader.Take(want, events);
      offset := offset + reader.pos;
    }
  }

  // ----- verification

  /** What can go wrong while a descriptor is verified; each flag is one failing system call. */
  datatype VerifyFaults = VerifyFaults(
    stat: bool, rewind: bool, hash: seq<ReadEvent>, rewindHeader: bool, header: seq<ReadEvent>, rewindEnd: bool)
  {
    /** Every call that stands for itself works. */
    ghost predicate CallsWork() {
      !stat && !rewind && !rewindHeader && !rewindEnd
    }

    ghost predicate None() {
      CallsWork() && NoReadFails(hash) && NoReadFails(header)
    }

    /** The reads suffice for content of `size` bytes, so verification comes to an end. */
    ghost predicate Complete(size: nat) {
      Ends(hash, size, COPY_BUFFER_BYTES) && Finishes(header, 4, size, 4)
    }
  }

  class Verified {
    const path: string
    const sha256: string
    const format: Format
    const compressedBytes: nat
    var file: File?

    constructor (path: string, sha256: string, format: Format, compressedBytes: nat, file: File)
      ensures this.path == path && this.sha256 == sha256 && this.format == format
      ensures this.compressedBytes == compressedBytes && this.file == file
    {
      this.path, this.sha256, this.format := path, sha256, format;
      this.compressedBytes, this.file := compressedBytes, file;
    }

    /** The held descriptor still has the verified length and digest. */
    ghost predicate Intact(p: Primitives)
      reads this, file
    {
      file != null && |file.content| == compressedBytes && Digest(p, file.content) == sha256
    }

    /** Releases the descriptor; a second call finds nothing to release and changes nothing. */
    method Close()
      modifies this, file
      ensures file == null
      ensures old(file) != null ==> !old(file).open && old(file).content == old(file.content)
    {
      if file == null {
        return;
      }
      file.open := false;
      file := null;
    }
  }

  /** The record matches the content it was made from, and reading will start at its first byte. */
  ghost predicate Records(p: Primitives, v: Verified, path: string, sha256: string)
    reads v, v.file
  {
    && v.Intact(p) && v.path == path && v.sha256 == sha256
    && v.format == FormatOf(v.file.content)
    && v.file.regular && v.file.offset == 0
  }

  method VerifyDescriptor(p: Primitives, file: File, path: string, expected: string, faults: VerifyFaults)
    returns (v: Verified?, end: CopyEnd)
    modifies file`offset
    ensures end == Copied <==> v != null
    ensures v != null ==> fresh(v) && v.file == file && Records(p, v, path, expected) && faults.CallsWork()
    ensures end == CopyFailed ==> !faults.None() || !file.regular || Digest(p, file.content) != expected
    ensures faults.Complete(|file.content|) ==> end != Blocked
  {
    v := null;
    if faults.stat || !file.regular || faults.rewind {
      return null, CopyFailed;
    }
    file.offset := 0;
    var data;
    data, end := file.Drain(faults.hash);
    if end != Copied {
      return null, end;
    }
    assert data == file.content;
    if Digest(p, data) != expected {
      return null, CopyFailed;
    }
    var format;
    format, end := DescriptorFormat(file, faults);
    if end != Copied {
      return null, end;
    }
    v := new Verified(path, expected, format, |data|, file);
  }

  method DescriptorFormat(file: File, faults: VerifyFaults) returns (format: Format, end: CopyEnd)
    modifies file`offset
    ensures end == Copied ==> file.offset == 0 && format == FormatOf(file.content)
    ensures end == Copied ==> !faults.rewindHeader && !faults.rewindEnd
    ensures end == CopyFailed ==> !faults.None()
    ensures Finishes(faults.header, 4, |file.content|, 4) ==> end != Blocked
  {
    format := RawFormat;
    if faults.rewindHeader {
      return format, CopyFailed;
    }
    file.offset := 0;
    var header;
    header, end := file.Take(4, faults.header);
    if end != Copied {
      return format, end;
    }
    if faults.rewindEnd {
      return format, CopyFailed;
    }
    file.offset := 0;
    if |header| == 4 && header == ZSTD_MAGIC {
      format := ZstdFormat;
    }
    assert header == file.content[..Min(4, |file.content|)];
  }

  /** Opens, hashes and keeps the descriptor; it stays open exactly on success. */
  method Verify(p: Primitives, file: File, openFails: bool, path: string, expected: string, faults: VerifyFaults)
    returns (v: Verified?, end: CopyEnd)
    requires !file.open
    modifies file`offset, file`open
    ensures end == Copied <==> v != null
    ensures end != Blocked ==> (file.open <==> v != null)
    ensures v != null ==> fresh(v) && v.file == file && ValidDigest(expected) && Records(p, v, path, expected)
    ensures v != null ==> !openFails && faults.CallsWork()
    ensures end == CopyFailed ==>
      !ValidDigest(expected) || openFails || !faults.None() || !file.regular || Digest(p, file.content) != expected
    ensures faults.Complete(|file.content|) ==> end != Blocked
  {
    if !ValidDigest(expected) || openFails {
      return null, CopyFailed;
    }
    file.open := true;
    v, end := VerifyDescriptor(p, file, path, expected, faults);
    if end == CopyFailed {
      file.open := false;
    }
  }

  // ----- the guarded write

  datatype WriteError = InvalidArgument | Cancelled | Closed | SourceChanged | IoFailed | SizeMismatch

  datatype WriteOutcome = Written(writtenBytes: nat) | Refused(error: WriteError) | StillRunning

  /** Everything outside the write that decides how it goes. */
  datatype WriteFaults = WriteFaults(
    cancelled: bool,
    stat: bool, rewind: bool, hash: seq<ReadEvent>, rewindEnd: bool,
    decoder: bool, copy: seq<CopyEvent>, probe: seq<ReadEvent>, sync: bool)
  {
    /** Nothing cancels the write, and every call that stands for itself works; a raw image needs no decoder. */
    ghost predicate CallsWork(format: Format) {
      !cancelled && !stat && !rewind && !rewindEnd && !sync && (format == ZstdFormat ==> !decoder)
    }

    ghost predicate None() {
      CallsWork(ZstdFormat) && NoReadFails(hash) && Faultless(copy) && NoReadFails(probe)
    }

    /** The copy and the surplus probe suffice for a stream of `size` bytes. */
    ghost predicate Streams(size: nat, expected: nat) {
      && Finishes(Reads(copy), expected, size, COPY_BUFFER_BYTES)
      && (expected <= size ==> Finishes(probe, 1, size - expected, 1))
    }

    /** So do the reads of the second verification, for content of `length` bytes. */
    ghost predicate Complete(length: nat, size: nat, expected: nat) {
      Ends(hash, length, COPY_BUFFER_BYTES) && Streams(size, expected)
    }
  }

  method ReverifySource(p: Primitives, source: Verified, faults: WriteFaults) returns (end: CopyEnd, changed: bool)
    requires source.file != null
    modifies source.file`offset
    ensures end == Copied ==> source.Intact(p) && source.file.offset == 0
    ensures end == Copied ==> !faults.stat && !faults.rewind && !faults.rewindEnd
    ensures end == CopyFailed && source.Intact(p) ==> !faults.None()
    ensures end == CopyFailed ==> if changed then !source.Intact(p) else !faults.None()
    ensures Ends(faults.hash, |source.file.content|, COPY_BUFFER_BYTES) ==> end != Blocked
  {
    var file := source.file;
    changed := false;
    if faults.stat {
      return CopyFailed, false;
    }
    if |file.content| != source.compressedBytes {
      return CopyFailed, true;
    }
    if faults.rewind {
      return CopyFailed, false;
    }
    file.offset := 0;
    var data;
    data, end := file.Drain(faults.hash);
    if end != Copied {
      return;
    }
    assert data == file.content;
    if Digest(p, data) != source.sha256 {
      return CopyFailed, true;
    }
    if faults.rewindEnd {
      return CopyFailed, false;
    }
    file.offset := 0;
  }

  /** The stream the held descriptor expands to. */
  ghost function SourceStream(p: Primitives, source: Verified): Stream
    requires source.file != null
    reads source, source.file
  {
    Expansion(p, source.format, source.file.content)
  }

  /** The destination holds the first `n` bytes of `image` at its old offset and its old bytes elsewhere. */
  ghost predicate HoldsPrefix(before: DiskState, after: DiskState, image: seq<Byte>, n: nat) {
    && n <= |image| && before.offset + n <= |before.bytes|
    && after.bytes == Overlay(before.bytes, before.offset, image[..n]) && after.offset == before.offset + n
  }

  /** Reports run from 0 to `n`, strictly up, each equal to the bytes accepted when it was made. */
  ghost predicate Reported(before: DiskState, after: DiskState, log: seq<Progress>, expected: int, n: nat) {
    && |before.marks| <= |after.marks|
    && Tracks(log, expected, after.marks, |before.marks|, before.offset)
    && Increases(log, n)
  }

  /**
   What streaming leaves behind: a prefix of the stream of at most the expected length, synced at
   most once and only behind a stream that ended cleanly at exactly that length.
   */
  ghost predicate Streamed(
    before: DiskState, after: DiskState, stream: Stream, expected: nat, r: WriteOutcome, log: seq<Progress>)
  {
    && before.offset <= after.offset <= before.offset + expected
    && HoldsPrefix(before, after, stream.bytes, after.offset - before.offset)
    && Reported(before, after, log, expected, after.offset - before.offset)
    && (after.syncs == before.syncs || after.syncs == before.syncs + 1)
    && (after.syncs == before.syncs + 1 ==> stream.clean
                                            && after.offset - before.offset == expected == |stream.bytes|)
    && (r.Written? ==> after.syncs == before.syncs + 1 && r.writtenBytes == expected)
    && (r == Refused(SizeMismatch) ==> |stream.bytes| != expected)
  }

  /** A copy in step with its reader has left a prefix of the stream and reported it. */
  lemma InStepIsStreamed(reader: Reader, writer: ProgressWriter, before: DiskState, after: DiskState)
    requires after == writer.destination.State() && before.offset <= |before.bytes|
    requires InStep(reader, writer, before.bytes, |before.marks|, before.offset)
    ensures 0 <= writer.written == after.offset - before.offset <= reader.pos <= |reader.stream.bytes|
    ensures |after.bytes| == |before.bytes| && writer.destination.Valid()
    ensures HoldsPrefix(before, after, reader.stream.bytes, writer.written)
    ensures Reported(before, after, writer.log, writer.expected, writer.written)
  {
    hide Overlay, Tracks, Increases;
  }

  method StreamTo(stream: Stream, disk: Disk, expected: nat, faults: WriteFaults)
    returns (r: WriteOutcome, log: seq<Progress>)
    requires disk.Valid()
    modifies disk`bytes, disk`offset, disk`marks, disk`syncs
    ensures disk.Valid() && Streamed(old(disk.State()), disk.State(), stream, expected, r, log)
    ensures r.Written? ==> !faults.sync
    ensures
      (&& faults.None() && stream.clean && |stream.bytes| == expected
       && old(disk.offset) + expected <= |disk.bytes|)
      ==> !r.Refused?
    ensures r.Refused? ==> r.error == SizeMismatch || r.error == IoFailed
    ensures r == Refused(IoFailed) ==>
      !faults.None() || !stream.clean || old(disk.offset) + expected > |disk.bytes|
    ensures faults.Streams(|stream.bytes|, expected) ==> !r.StillRunning?
  {
    ghost var before := disk.State();
    ghost var from, start := |disk.marks|, disk.offset;
    var reader := new Reader(stream);
    var writer := new ProgressWriter(disk, expected, [Progress(0, expected)]);
    var written, end := CopyLimited(reader, writer, expected, faults.copy, from, start);
    log := writer.log;
    InStepIsStreamed(reader, writer, before, disk.State());
    hide InStep, Overlay, Tracks, Increases, Finishes, Reads, HoldsPrefix, Reported, Ends, Faultless;
    if end == CopyFailed {
      return Refused(IoFailed), log;
    }
    if end == Blocked {
      return StillRunning, log;
    }
    if written != expected {
      return Refused(SizeMismatch), log;
    }
    var extra;
    extra, end := reader.Take(1, faults.probe);
    if |extra| > 0 {
      return Refused(SizeMismatch), log;
    }
    if end == CopyFailed {
      return Refused(IoFailed), log;
    }
    if end == Blocked {
      return StillRunning, log;
    }
    var synced := disk.Sync(faults.sync);
    if !synced {
      return Refused(IoFailed), log;
    }
    r := Written(written);
  }

  /**
   Every run either leaves the destination untouched and unreported, or had an intact source and
   streamed it as above. So a closed, resized or altered source sends no byte and no sync.
   */
  method Write(p: Primitives, source: Verified?, disk: Disk, expected: int, faults: WriteFaults)
    returns (r: WriteOutcome, log: seq<Progress>)
    requires disk.Valid()
    modifies if source != null && source.file != null then {source.file} else {}
    modifies disk`bytes, disk`offset, disk`marks, disk`syncs
    ensures disk.Valid()
    ensures source != null ==> source.file == old(source.file)
    ensures source != null && source.file != null ==>
      source.file.content == old(source.file.content) && source.file.open == old(source.file.open)
    ensures
      || (disk.State() == old(disk.State()) && !r.Written? && log == [])
      || (source != null && source.Intact(p) && expected > 0
          && Streamed(old(disk.State()), disk.State(), SourceStream(p, source), expected, r, log))
    ensures
      (&& faults.None() && source != null && source.Intact(p) && expected > 0 && SourceStream(p, source).clean
       && |SourceStream(p, source).bytes| == expected && old(disk.offset) + expected <= |disk.bytes|)
      ==> !r.Refused?
    ensures r.Written? ==> faults.CallsWork(source.format)
    ensures r.Written? && source.format == RawFormat ==>
      |source.file.content| == expected && old(disk.offset) + expected <= |disk.bytes|
      && disk.bytes == Overlay(old(disk.bytes), old(disk.offset), source.file.content)
    ensures r.Written? && source.format == ZstdFormat ==>
      var decoded := p.zstd(source.file.content);
      decoded.clean && |decoded.bytes| == expected && old(disk.offset) + expected <= |disk.bytes|
      && disk.bytes == Overlay(old(disk.bytes), old(disk.offset), decoded.bytes)
    ensures r == Refused(Cancelled) <==> faults.cancelled
    ensures r == Refused(InvalidArgument) <==> !faults.cancelled && (source == null || expected <= 0)
    ensures r == Refused(Closed) <==> !faults.cancelled && source != null && expected > 0 && source.file == null
    ensures r == Refused(SourceChanged) ==> !source.Intact(p)
    ensures r == Refused(SizeMismatch) ==> source.Intact(p) && |SourceStream(p, source).bytes| != expected
    ensures r == Refused(IoFailed) ==>
      !faults.None()
      || (source.Intact(p) && (!SourceStream(p, source).clean || old(disk.offset) + expected > |disk.bytes|))
    ensures r.StillRunning? ==>
      && source != null && source.file != null && expected > 0
      && !faults.Complete(|source.file.content|, |SourceStream(p, source).bytes|, expected)
    ensures
      (&& faults.None() && source != null && source.Intact(p) && expected > 0 && SourceStream(p, source).clean
       && |SourceStream(p, source).bytes| == expected && old(disk.offset) + expected <= |disk.bytes|
       && faults.Complete(|source.file.content|, expected, expected))
      ==> r == Written(expected)
  {
    log := [];
    if faults.cancelled {
      return Refused(Cancelled), log;
    }
    if source == null || expected <= 0 {
      return Refused(InvalidArgument), log;
    }
    if source.file == null {
      return Refused(Closed), log;
    }
    var end, changed := ReverifySource(p, source, faults);
    if end == CopyFailed {
      return Refused(if changed then SourceChanged else IoFailed), log;
    }
    if end == Blocked {
      return StillRunning, log;
    }
    if source.format == ZstdFormat && faults.decoder {
      return Refused(IoFailed), log;
    }
    assert source.file.Rest() == source.file.content;
    ghost var before := disk.State();
    r, log := StreamTo(Expansion(p, source.format, source.file.Rest()), disk, expected, faults);
    StreamedInFull(before, disk.State(), SourceStream(p, source), expected, r, log);
    hide Streamed;
  }

  lemma StreamedInFull(
    before: DiskState, after: DiskState, stream: Stream, expected: nat, r: WriteOutcome, log: seq<Progress>)
    requires Streamed(before, after, stream, expected, r, log)
    ensures r.Written? ==>
      && stream.clean && |stream.bytes| == expected && before.offset + expected <= |before.bytes|
      && after.bytes == Overlay(before.bytes, before.offset, stream.bytes)
    ensures r == Refused(SizeMismatch) ==> |stream.bytes| != expected
    ensures |after.bytes| == |before.bytes|
  {
    hide Overlay, Reported;
    assert stream.bytes[..|stream.bytes|] == stream.bytes;
  }

  // ----- a session of calls on one held source

  datatype SourceCall = CloseCall | MutateCall(content: seq<Byte>) | WriteCall(expected: int, faults: WriteFaults)

  /** The content the file has when call `n` starts. */
  ghost function ContentAt(initial: seq<Byte>, calls: seq<SourceCall>, n: nat): seq<Byte>
    requires n <= |calls|
  {
    if n == 0 then initial
    else if calls[n - 1].MutateCall? then calls[n - 1].content
    else ContentAt(initial, calls, n - 1)
  }

  /** Call `n` is a write that starts before any close, on content of the recorded length and digest. */
  ghost predicate IsArmed(
    p: Primitives, length: nat, sha256: string, initial: seq<Byte>, calls: seq<SourceCall>, n: nat)
    requires n < |calls|
  {
    && calls[n].WriteCall? && (forall m :: 0 <= m < n ==> !calls[m].CloseCall?)
    && |ContentAt(initial, calls, n)| == length && Digest(p, ContentAt(initial, calls, n)) == sha256
  }

  /**
   Whatever the calls and their order, `states` holds the disk before each call and after the last,
   and every call that is not an armed write leaves it as it was: no byte, no sync.
   */
  method Session(p: Primitives, source: Verified, disk: Disk, calls: seq<SourceCall>) returns (ghost states: seq<DiskState>)
    requires disk.Valid() && source.file != null
    modifies source, source.file, disk`bytes, disk`offset, disk`marks, disk`syncs
    ensures disk.Valid()
    ensures source.file == null <==> exists n :: 0 <= n < |calls| && calls[n].CloseCall?
    ensures source.file == null ==> !old(source.file).open
    ensures |states| == |calls| + 1 && states[0] == old(disk.State()) && states[|calls|] == disk.State()
    ensures forall n ::
      0 <= n < |calls| && !IsArmed(p, source.compressedBytes, source.sha256, old(source.file.content), calls, n) ==>
        states[n + 1] == states[n]
  {
    var file := source.file;
    ghost var initial := file.content;
    states := [disk.State()];
    hide Streamed, Digest;
    for i := 0 to |calls|
      invariant disk.Valid()
      invariant source.file == null || source.file == file
      invariant file.content == ContentAt(initial, calls, i)
      invariant source.file == null <==> exists n :: 0 <= n < i && calls[n].CloseCall?
      invariant source.file == null ==> !file.open
      invariant |states| == i + 1 && states[0] == old(disk.State()) && states[i] == disk.State()
      invariant forall n :: 0 <= n < i && !IsArmed(p, source.compressedBytes, source.sha256, initial, calls, n) ==>
        states[n + 1] == states[n]
    {
      match calls[i] {
        case CloseCall =>
          source.Close();
        case MutateCall(content) =>
          file.content := content;
        case WriteCall(expected, faults) =>
          var r, log := Write(p, source, disk, expected, faults);
      }
      states := states + [disk.State()];
    }
  }
}
