/**
 Byte streams under arbitrary chunking. Each run is driven by a finite list of events that
 says what every read and write returned; when the list ends first, the run is still
 blocked, so statements about all lists are statements about all prefixes of all runs.
 */
module Streams {
  import opened Basics
  import opened Text

  const COPY_BUFFER_BYTES := 4 * 1024 * 1024

  /** What a source delivers: its bytes, then a clean end of file or an error. */
  datatype Stream = Stream(bytes: seq<Byte>, clean: bool)

  /** One read: at most `count` bytes, possibly with the end reported, possibly failed or cancelled. */
  datatype ReadEvent = ReadEvent(count: nat, atEnd: bool, failed: bool)

  /** One write: at most `count` bytes accepted, possibly with an error. */
  datatype WriteEvent = WriteEvent(count: nat, failed: bool)

  datatype ReadStatus = More | EndOfFile | ReadError

  class Reader {
    const stream: Stream
    var pos: nat

    constructor (stream: Stream)
      ensures this.stream == stream && pos == 0
    {
      this.stream := stream;
      pos := 0;
    }

    ghost predicate Valid()
      reads this
    {
      pos <= |stream.bytes|
    }

    method Read(limit: nat, event: ReadEvent) returns (chunk: seq<Byte>, status: ReadStatus)
      requires Valid()
      modifies this
      ensures Valid() && old(pos) <= pos && pos - old(pos) <= limit
      ensures chunk == stream.bytes[old(pos)..pos]
      ensures pos - old(pos) == Min(event.count, Min(limit, |stream.bytes| - old(pos)))
      ensures status == EndOfFile ==> stream.clean && pos == |stream.bytes|
      ensures status == ReadError ==> event.failed || !stream.clean
      ensures status != ReadError ==> !event.failed
      ensures status == More ==> event.atEnd ==> pos < |stream.bytes|
    {
      var n := Min(event.count, Min(limit, |stream.bytes| - pos));
      chunk := stream.bytes[pos..pos + n];
      pos := pos + n;
      if event.failed {
        status := ReadError;
      } else if pos == |stream.bytes| && event.atEnd {
        status := if stream.clean then EndOfFile else ReadError;
      } else {
        status := More;
      }
    }

    /** Copies to a sink that accepts everything, as hashing does. */
    method Drain(events: seq<ReadEvent>) returns (data: seq<Byte>, end: CopyEnd)
      requires Valid()
      modifies this
      ensures Valid() && old(pos) <= pos && data == stream.bytes[old(pos)..pos]
      ensures end == Copied ==> stream.clean && pos == |stream.bytes|
      ensures end == CopyFailed && NoReadFails(events) ==> !stream.clean
      ensures Ends(events, |stream.bytes| - old(pos), COPY_BUFFER_BYTES) ==> end != Blocked
    {
      ghost var rest := |stream.bytes| - pos;
      assert Offered(events, 0, COPY_BUFFER_BYTES) == 0;
      data := [];
      for i := 0 to |events|
        invariant Valid() && old(pos) <= pos && data == stream.bytes[old(pos)..pos]
        invariant |data| == Min(Offered(events, i, COPY_BUFFER_BYTES), rest)
        invariant forall j :: 0 <= j < i ==> !EndSeen(events, j, rest, COPY_BUFFER_BYTES)
      {
        OfferedStep(events, i, rest, COPY_BUFFER_BYTES);
        var chunk, status := Read(COPY_BUFFER_BYTES, events[i]);
        data := data + chunk;
        if status == EndOfFile {
          return data, Copied;
        }
        if status == ReadError {
          return data, CopyFailed;
        }
        EndNotSeen(events, i, rest, COPY_BUFFER_BYTES, |data|);
      }
      end := Blocked;
    }

    /** `io.ReadFull`: reads until `want` bytes, an end or an error. */
    method Take(want: nat, events: seq<ReadEvent>) returns (data: seq<Byte>, end: CopyEnd)
      requires Valid()
      modifies this
      ensures Valid() && old(pos) <= pos && data == stream.bytes[old(pos)..pos] && |data| <= want
      ensures end == Copied ==> |data| == want || (|data| < want && stream.clean && pos == |stream.bytes|)
      ensures end != Copied ==> |data| < want
      ensures end == CopyFailed && NoReadFails(events) ==> !stream.clean
      ensures Finishes(events, want, |stream.bytes| - old(pos), want) ==> end != Blocked
    {
      ghost var rest := |stream.bytes| - pos;
      data := [];
      for i := 0 to |events|
        invariant Valid() && old(pos) <= pos && data == stream.bytes[old(pos)..pos] && |data| <= want
        invariant |data| == Min(Offered(events, i, want), Min(want, rest))
        invariant rest < want ==> forall j :: 0 <= j < i ==> !EndSeen(events, j, rest, want)
      {
        if |data| == want {
          return data, Copied;
        }
        OfferedStep(events, i, Min(want, rest), want);
        var chunk, status := Read(want - |data|, events[i]);
        data := data + chunk;
        if |data| == want || status == EndOfFile {
          return data, Copied;
        }
        if status == ReadError {
          return data, CopyFailed;
        }
      }
      end := if |data| == want then Copied else Blocked;
    }
  }

  /** How many bytes the first `n` reads are ready to take, a buffer at a time. */
  ghost function Offered(events: seq<ReadEvent>, n: nat, buffer: nat): nat
    requires n <= |events|
  {
    if n == 0 then 0 else Offered(events, n - 1, buffer) + Min(events[n - 1].count, buffer)
  }

  lemma OfferedStep(events: seq<ReadEvent>, n: nat, most: nat, buffer: nat)
    requires n < |events|
    ensures Min(Offered(events, n + 1, buffer), most) ==
      Min(Offered(events, n, buffer), most)
      + Min(events[n].count, Min(buffer, most - Min(Offered(events, n, buffer), most)))
  {
  }

  /** Read `n` is ready to report the end, and by then all `size` bytes can have been taken. */
  ghost predicate EndSeen(events: seq<ReadEvent>, n: nat, size: nat, buffer: nat)
    requires n < |events|
  {
    events[n].atEnd && Offered(events, n + 1, buffer) >= size
  }

  lemma EndNotSeen(events: seq<ReadEvent>, n: nat, size: nat, buffer: nat, taken: nat)
    requires n < |events| && taken == Min(Offered(events, n + 1, buffer), size) && (events[n].atEnd ==> taken < size)
    ensures !EndSeen(events, n, size, buffer)
  {
  }

  /** The list is long enough for a source of `size` bytes to be read to its end. */
  ghost predicate Ends(events: seq<ReadEvent>, size: nat, buffer: nat) {
    exists n :: 0 <= n < |events| && EndSeen(events, n, size, buffer)
  }

  /** The list is long enough for `want` of `size` bytes, or for the end if there are fewer. */
  ghost predicate Finishes(events: seq<ReadEvent>, want: nat, size: nat, buffer: nat) {
    if want <= size then Offered(events, |events|, buffer) >= want else Ends(events, size, buffer)
  }

  ghost predicate NoReadFails(events: seq<ReadEvent>) {
    forall i :: 0 <= i < |events| ==> !events[i].failed
  }

  // ----- the destination

  ghost function Overlay(base: seq<Byte>, start: nat, data: seq<Byte>): (r: seq<Byte>)
    requires start + |data| <= |base|
    ensures |r| == |base|
  {
    base[..start] + data + base[start + |data|..]
  }

  lemma OverlayOfNothing(base: seq<Byte>, start: nat)
    requires start <= |base|
    ensures Overlay(base, start, []) == base
  {
  }

  /** Writing the start of the next chunk behind a prefix leaves a longer prefix. */
  lemma OverlayGrows(base: seq<Byte>, start: nat, image: seq<Byte>, done: nat, upTo: nat, n: nat)
    requires done + n <= upTo <= |image| && start + done + n <= |base|
    ensures Overlay(Overlay(base, start, image[..done]), start + done, image[done..upTo][..n])
         == Overlay(base, start, image[..done + n])
  {
    assert image[..done] + image[done..upTo][..n] == image[..done + n];
  }

  /** The observable state of a destination: content, offset, sync calls, and the offset after each accepting write. */
  datatype DiskState = DiskState(bytes: seq<Byte>, offset: nat, syncs: nat, marks: seq<nat>)

  /** An open destination that overwrites in place at its offset. */
  class Disk {
    var bytes: seq<Byte>
    var offset: nat
    var syncs: nat
    var open: bool
    ghost var marks: seq<nat>

    ghost function State(): DiskState
      reads this
    {
      DiskState(bytes, offset, syncs, marks)
    }

    constructor (bytes: seq<Byte>)
      ensures Valid() && this.bytes == bytes && offset == 0 && syncs == 0 && open && marks == []
    {
      this.bytes, offset, syncs, open, marks := bytes, 0, 0, true, [];
    }

    ghost predicate Valid()
      reads this
    {
      offset <= |bytes|
    }

    method Write(buffer: seq<Byte>, event: WriteEvent) returns (n: nat)
      requires Valid()
      modifies this`bytes, this`offset, this`marks
      ensures Valid() && n <= |buffer| && offset == old(offset) + n && |bytes| == |old(bytes)|
      ensures bytes == Overlay(old(bytes), old(offset), buffer[..n])
      ensures marks == if n > 0 then old(marks) + [offset] else old(marks)
      ensures n == Min(event.count, Min(|buffer|, |bytes| - old(offset)))
    {
      n := Min(event.count, Min(|buffer|, |bytes| - offset));
      bytes := bytes[..offset] + buffer[..n] + bytes[offset + n..];
      offset := offset + n;
      if n > 0 {
        marks := marks + [offset];
      }
    }

    method Sync(fails: bool) returns (ok: bool)
      modifies this`syncs
      ensures ok == !fails && syncs == old(syncs) + 1
    {
      syncs := syncs + 1;
      ok := !fails;
    }
  }

  // ----- progress

  datatype Progress = Progress(writtenBytes: int, expectedBytes: int)

  /** Reports start at 0, then each equals the bytes accepted when it was made. */
  ghost predicate Tracks(log: seq<Progress>, expected: int, marks: seq<nat>, from: nat, start: nat)
    requires from <= |marks|
  {
    && |log| == |marks| - from + 1
    && log[0] == Progress(0, expected)
    && forall i :: 0 < i < |log| ==> log[i] == Progress(marks[from + i - 1] - start, expected)
  }

  /** Reports strictly increase and the last one is `written`. */
  ghost predicate Increases(log: seq<Progress>, written: int) {
    && log != [] && log[|log| - 1].writtenBytes == written
    && forall i, j :: 0 <= i < j < |log| ==> log[i].writtenBytes < log[j].writtenBytes
  }

  class ProgressWriter {
    const destination: Disk
    const expected: int
    var written: int
    var log: seq<Progress>

    constructor (destination: Disk, expected: int, log: seq<Progress>)
      ensures this.destination == destination && this.expected == expected
      ensures written == 0 && this.log == log
    {
      this.destination, this.expected := destination, expected;
      written, this.log := 0, log;
    }

    /** Since `start`, `start` bytes in, everything reported has been accepted and nothing else. */
    ghost predicate Valid(from: nat, start: nat)
      reads this, destination
    {
      && destination.Valid() && written >= 0 && destination.offset == start + written
      && from <= |destination.marks| && Tracks(log, expected, destination.marks, from, start)
      && Increases(log, written)
    }

    method Write(buffer: seq<Byte>, event: WriteEvent, ghost from: nat, ghost start: nat) returns (n: nat)
      requires Valid(from, start)
      modifies this, destination`bytes, destination`offset, destination`marks
      ensures Valid(from, start) && n <= |buffer| && written == old(written) + n
      ensures |destination.bytes| == |old(destination.bytes)|
      ensures destination.bytes == Overlay(old(destination.bytes), old(destination.offset), buffer[..n])
      ensures n == Min(event.count, Min(|buffer|, |destination.bytes| - old(destination.offset)))
    {
      n := destination.Write(buffer, event);
      written := written + n;
      if n > 0 {
        log := log + [Progress(written, expected)];
      }
    }
  }

  // ----- the copy loop

  datatype CopyEnd = Copied | CopyFailed | Blocked

  datatype CopyEvent = CopyEvent(read: ReadEvent, write: WriteEvent)

  ghost function Reads(events: seq<CopyEvent>): (r: seq<ReadEvent>)
    ensures |r| == |events| && forall i :: 0 <= i < |r| ==> r[i] == events[i].read
  {
    seq(|events|, i requires 0 <= i < |events| => events[i].read)
  }

  /** No read fails, and no write fails or stops short of a full buffer. */
  ghost predicate IsFaultless(event: CopyEvent) {
    !event.read.failed && !event.write.failed && event.write.count >= COPY_BUFFER_BYTES
  }

  ghost predicate Faultless(events: seq<CopyEvent>) {
    forall i :: 0 <= i < |events| ==> IsFaultless(events[i])
  }

  /** The destination holds what the reader has delivered, and all of it has been reported. */
  ghost predicate InStep(reader: Reader, writer: ProgressWriter, base: seq<Byte>, from: nat, start: nat)
    reads reader, writer, writer.destination
  {
    && reader.Valid() && writer.Valid(from, start) && writer.written <= reader.pos
    && start + writer.written <= |base| == |writer.destination.bytes|
    && writer.destination.bytes == Overlay(base, start, reader.stream.bytes[..writer.written])
  }

  /** One read and the write of what it delivered; `Blocked` asks for more. */
  method CopyChunk(reader: Reader, writer: ProgressWriter, most: nat, event: CopyEvent,
    ghost base: seq<Byte>, ghost from: nat, ghost start: nat) returns (end: CopyEnd)
    requires InStep(reader, writer, base, from, start) && writer.written == reader.pos
    modifies reader, writer, writer.destination`bytes, writer.destination`offset, writer.destination`marks
    ensures InStep(reader, writer, base, from, start)
    ensures reader.pos == old(reader.pos)
      + Min(event.read.count, Min(Min(COPY_BUFFER_BYTES, most), |reader.stream.bytes| - old(reader.pos)))
    ensures end != CopyFailed ==> writer.written == reader.pos
    ensures end != CopyFailed ==> !event.read.failed && (reader.pos > old(reader.pos) ==> !event.write.failed)
    ensures end == Copied ==> reader.stream.clean && reader.pos == |reader.stream.bytes|
    ensures end == Blocked ==> event.read.atEnd ==> reader.pos < |reader.stream.bytes|
    ensures end == CopyFailed ==>
      !IsFaultless(event) || start + reader.pos > |base| || !reader.stream.clean
  {
    hide Tracks, Increases, Overlay;
    ghost var done := reader.pos;
    var chunk, status := reader.Read(Min(COPY_BUFFER_BYTES, most), event.read);
    if |chunk| > 0 {
      var n := writer.Write(chunk, event.write, from, start);
      OverlayGrows(base, start, reader.stream.bytes, done, reader.pos, n);
      if event.write.failed || n != |chunk| {
        return CopyFailed;
      }
    }
    end := if status == EndOfFile then Copied else if status == ReadError then CopyFailed else Blocked;
  }

  /** `io.CopyBuffer` through `io.LimitReader`. */
  method CopyLimited(
    reader: Reader, writer: ProgressWriter, limit: nat, events: seq<CopyEvent>, ghost from: nat, ghost start: nat)
    returns (written: nat, end: CopyEnd)
    requires reader.Valid() && reader.pos == 0
    requires writer.Valid(from, start) && writer.written == 0
    modifies reader, writer, writer.destination`bytes, writer.destination`offset, writer.destination`marks
    ensures InStep(reader, writer, old(writer.destination.bytes), from, start)
    ensures writer.written == written <= limit
    ensures end == Copied ==> reader.pos == written
    ensures end == Copied && written < limit ==> reader.stream.clean && written == |reader.stream.bytes|
    ensures end == CopyFailed && Faultless(events) && start + limit <= |writer.destination.bytes| ==> !reader.stream.clean
    ensures Finishes(Reads(events), limit, |reader.stream.bytes|, COPY_BUFFER_BYTES) ==> end != Blocked
  {
    ghost var base, taken, size := writer.destination.bytes, Reads(events), |reader.stream.bytes|;
    hide InStep, EndSeen, ProgressWriter.Valid;
    StartsInStep(reader, writer, from, start);
    assert Offered(taken, 0, COPY_BUFFER_BYTES) == 0;
    hide Offered;
    for i := 0 to |events|
      invariant InStep(reader, writer, base, from, start)
      invariant writer.written == reader.pos == Min(Offered(taken, i, COPY_BUFFER_BYTES), Min(limit, size))
      invariant size < limit ==> forall j :: 0 <= j < i ==> !EndSeen(taken, j, size, COPY_BUFFER_BYTES)
    {
      if writer.written == limit {
        return limit, Copied;
      }
      OfferedStep(taken, i, Min(limit, size), COPY_BUFFER_BYTES);
      end := CopyChunk(reader, writer, limit - writer.written, events[i], base, from, start);
      if end != Blocked {
        InStepIsBounded(reader, writer, base, from, start);
        return writer.written, end;
      }
      if size < limit {
        EndNotSeen(taken, i, size, COPY_BUFFER_BYTES, reader.pos);
      }
    }
    written := writer.written;
    end := if written == limit then Copied else Blocked;
  }

  lemma StartsInStep(reader: Reader, writer: ProgressWriter, from: nat, start: nat)
    requires reader.Valid() && reader.pos == 0 && writer.Valid(from, start) && writer.written == 0
    ensures InStep(reader, writer, writer.destination.bytes, from, start)
  {
    hide Tracks, Increases;
    OverlayOfNothing(writer.destination.bytes, start);
    assert reader.stream.bytes[..0] == [];
  }

  lemma InStepIsBounded(reader: Reader, writer: ProgressWriter, base: seq<Byte>, from: nat, start: nat)
    requires InStep(reader, writer, base, from, start)
    ensures 0 <= writer.written <= reader.pos && |writer.destination.bytes| == |base|
  {
  }
}
