/**
 Atomic staging: a download goes to a partial file beside its destination and takes the
 destination's name only when it is complete. The directory keeps a ghost record of every
 state it passes through, so that what holds "at every step" can be stated.
 */
module Staging {
  import opened Basics
  import opened Text
  import opened Paths
  import opened Streams
  import opened Images

  type Int64 = x: int | -MAX_INT64 - 1 <= x <= MAX_INT64

  const STAGE_BUFFER_BYTES := 32 * 1024

  type Contents = map<string, seq<Byte>>

  /** One directory: what each name holds now, and every state it has passed through. */
  class Directory {
    var entries: Contents
    ghost var history: seq<Contents>

    /** A new empty file and the descriptor on it. */
    method Create(name: string) returns (file: File)
      requires name !in entries
      modifies this
      ensures fresh(file) && file.content == [] && file.regular && file.open
      ensures entries == old(entries)[name := []] && history == old(history) + [entries]
    {
      file := new File([], true);
      file.open := true;
      entries := entries[name := []];
      history := history + [entries];
    }

    /** Writing through the descriptor changes what the name holds. */
    method Append(name: string, file: File, data: seq<Byte>)
      requires name in entries && entries[name] == file.content
      modifies this, file`content, file`offset
      ensures file.content == old(file.content) + data
      ensures entries == old(entries)[name := file.content] && history == old(history) + [entries]
    {
      file.content := file.content + data;
      file.offset := file.offset + |data|;
      entries := entries[name := file.content];
      history := history + [entries];
    }

    /** Takes the target name in one step, replacing whatever had it. */
    method Rename(from: string, to: string)
      requires from in entries && from != to
      modifies this
      ensures entries == old(entries)[to := old(entries)[from]] - {from} && history == old(history) + [entries]
    {
      entries := entries[to := entries[from]] - {from};
      history := history + [entries];
    }

    /** Removing an absent name does nothing. */
    method Remove(name: string, fails: bool)
      modifies this
      ensures entries == (if fails then old(entries) else old(entries) - {name}) && history == old(history) + [entries]
    {
      if !fails && name in entries {
        entries := entries - {name};
      }
      history := history + [entries];
    }
  }

  function PartialName(destination: string, suffix: string): string {
    "." + Base(destination) + ".partial-" + suffix
  }

  /** A hidden name beside the destination. */
  lemma PartialIsNotDestination(destination: string, suffix: string)
    ensures PartialName(destination, suffix) != Base(destination)
    ensures "." + Base(destination) + ".partial-" <= PartialName(destination, suffix)
  {
    hide Base;
    assert |PartialName(destination, suffix)| > |Base(destination)|;
  }

  /** One failing system call each, and the reads and writes of the download. */
  datatype StageFaults = StageFaults(
    makeDirectory: bool, create: bool, mode: bool, copy: seq<CopyEvent>, sync: bool, verify: VerifyFaults,
    rename: bool, openDirectory: bool, syncDirectory: bool, closeDirectory: bool, remove: bool)
  {
    /** Every call before and after the download works. */
    ghost predicate CallsWork() {
      && !makeDirectory && !create && !mode && !sync && verify.CallsWork()
      && !rename && !openDirectory && !syncDirectory && !closeDirectory
    }

    /** Some call up to the rename fails, so the destination is never touched. */
    ghost predicate StopsBeforeRename() {
      makeDirectory || create || mode || sync || !verify.CallsWork() || rename
    }

    /** The reads suffice to download a body of `size` bytes and, if it is within the ceiling, to verify it. */
    ghost predicate Complete(size: nat, maximum: nat) {
      && Finishes(Reads(copy), maximum + 1, size, STAGE_BUFFER_BYTES)
      && (size <= maximum ==> verify.Complete(size))
    }
  }

  ghost predicate SameAt(before: Contents, now: Contents, name: string) {
    (name in now <==> name in before) && (name in now ==> now[name] == before[name])
  }

  /** One publication: the directory it starts from, its two names, and what it may publish. */
  datatype Publication = Publication(
    primitives: Primitives, before: Contents, name: string, partial: string, expected: string, maximum: int)
  {
    /** The destination holds all the bytes of a download of the expected digest, within the ceiling. */
    ghost predicate IsComplete(now: Contents) {
      name in now && Digest(primitives, now[name]) == expected && |now[name]| <= maximum
    }

    /** Nothing but the partial differs from the start, or the destination is complete. */
    ghost predicate IsSafe(now: Contents) {
      && (forall n :: n != name && n != partial ==> SameAt(before, now, n))
      && (SameAt(before, now, name) || IsComplete(now))
    }

    /** Every state since `earlier` is safe. */
    ghost predicate SafeSince(earlier: seq<Contents>, history: seq<Contents>) {
      earlier <= history && forall i :: |earlier| <= i < |history| ==> IsSafe(history[i])
    }

    /** Nothing but the partial differs from the start. */
    ghost predicate IsUnpublished(now: Contents) {
      now - {partial} == before - {partial}
    }

    ghost predicate UnpublishedSince(earlier: seq<Contents>, history: seq<Contents>) {
      earlier <= history && forall i :: |earlier| <= i < |history| ==> IsUnpublished(history[i])
    }

    /** In every state since `earlier` the destination is as it was. */
    ghost predicate KeptSince(earlier: seq<Contents>, history: seq<Contents>) {
      earlier <= history && forall i :: |earlier| <= i < |history| ==> SameAt(before, history[i], name)
    }

    lemma UnpublishedIsKept(earlier: seq<Contents>, history: seq<Contents>)
      requires partial != name && UnpublishedSince(earlier, history)
      ensures KeptSince(earlier, history) && SafeSince(earlier, history)
    {
      hide IsSafe, IsUnpublished, SameAt;
      forall i | |earlier| <= i < |history| ensures IsSafe(history[i]) && SameAt(before, history[i], name) {
        PartialIsSafe(history[i]);
      }
    }

    lemma PartialIsSafe(now: Contents)
      requires partial != name && IsUnpublished(now)
      ensures IsSafe(now) && SameAt(before, now, name)
    {
      hide Digest;
      forall n | n != partial ensures SameAt(before, now, n) {
        assert n in now - {partial} <==> n in before - {partial};
        assert n in now ==> (now - {partial})[n] == now[n];
      }
    }

    lemma PublishedIsSafe(now: Contents)
      requires now - {partial, name} == before - {partial, name} && IsComplete(now)
      ensures IsSafe(now)
    {
      hide Digest;
      forall n | n != partial && n != name ensures SameAt(before, now, n) {
        assert n in now - {partial, name} <==> n in before - {partial, name};
        assert n in now ==> (now - {partial, name})[n] == now[n];
      }
    }
  }

  /** The directory holds what it held before and the partial, and has held nothing else since `earlier`. */
  ghost predicate Filling(directory: Directory, file: File, pub: Publication, earlier: seq<Contents>)
    reads directory, file
  {
    && pub.partial != pub.name && pub.partial !in pub.before
    && directory.entries == pub.before[pub.partial := file.content]
    && pub.UnpublishedSince(earlier, directory.history)
  }

  /** One read, appended to the partial and then hashed; `Blocked` asks for more. */
  method AppendChunk(directory: Directory, file: File, partial: string, reader: Reader, most: nat, event: CopyEvent,
    hashed: seq<Byte>, ghost pub: Publication, ghost earlier: seq<Contents>) returns (more: seq<Byte>, end: CopyEnd)
    requires Filling(directory, file, pub, earlier) && partial == pub.partial
    requires reader.Valid() && hashed == file.content == reader.stream.bytes[..reader.pos]
    modifies directory, file`content, file`offset, reader
    ensures Filling(directory, file, pub, earlier) && reader.Valid()
    ensures reader.pos == old(reader.pos)
      + Min(event.read.count, Min(Min(STAGE_BUFFER_BYTES, most), |reader.stream.bytes| - old(reader.pos)))
    ensures end != CopyFailed ==> more == file.content == reader.stream.bytes[..reader.pos]
    ensures end != CopyFailed ==> !event.read.failed && (reader.pos > old(reader.pos) ==> !event.write.failed)
    ensures end == Copied ==> reader.stream.clean && reader.pos == |reader.stream.bytes|
    ensures end == Blocked ==> event.read.atEnd ==> reader.pos < |reader.stream.bytes|
    ensures end == CopyFailed ==> !IsFaultless(event) || !reader.stream.clean
  {
    more := hashed;
    var chunk, status := reader.Read(Min(STAGE_BUFFER_BYTES, most), event.read);
    if |chunk| > 0 {
      var n := Min(event.write.count, |chunk|);
      directory.Append(partial, file, chunk[..n]);
      assert pub.IsUnpublished(directory.entries);
      hide Publication.IsUnpublished;
      if n < |chunk| || event.write.failed {
        return more, CopyFailed;
      }
      assert chunk[..n] == chunk;
      more := more + chunk;
    }
    end := if status == EndOfFile then Copied else if status == ReadError then CopyFailed else Blocked;
  }

  /** `io.Copy` into the partial file and the hasher through `io.LimitReader`. */
  method CopyToPartial(directory: Directory, file: File, partial: string, body: Stream, limit: nat,
    events: seq<CopyEvent>, ghost pub: Publication) returns (hashed: seq<Byte>, end: CopyEnd)
    requires partial == pub.partial != pub.name && partial !in pub.before
    requires file.content == [] && directory.entries == pub.before[partial := []]
    modifies directory, file`content, file`offset
    ensures directory.entries == pub.before[partial := file.content]
    ensures pub.UnpublishedSince(old(directory.history), directory.history)
    ensures end == Copied ==> hashed == file.content && hashed <= body.bytes && |hashed| <= limit
    ensures end == Copied && |hashed| < limit ==> body.clean && hashed == body.bytes
    ensures end == CopyFailed && Faultless(events) ==> !body.clean
    ensures Finishes(Reads(events), limit, |body.bytes|, STAGE_BUFFER_BYTES) ==> end != Blocked
  {
    ghost var earlier, taken, size := directory.history, Reads(events), |body.bytes|;
    assert Offered(taken, 0, STAGE_BUFFER_BYTES) == 0;
    hide Publication.UnpublishedSince, Offered, EndSeen, Reads;
    hashed := [];
    var reader := new Reader(body);
    UnpublishedAtFirst(pub, earlier);
    for i := 0 to |events|
      invariant reader.Valid() && Filling(directory, file, pub, earlier)
      invariant hashed == file.content == body.bytes[..reader.pos]
      invariant reader.pos == Min(Offered(taken, i, STAGE_BUFFER_BYTES), Min(limit, size))
      invariant size < limit ==> forall j :: 0 <= j < i ==> !EndSeen(taken, j, size, STAGE_BUFFER_BYTES)
    {
      if reader.pos == limit {
        return hashed, Copied;
      }
      OfferedStep(taken, i, Min(limit, size), STAGE_BUFFER_BYTES);
      hashed, end := AppendChunk(
        directory, file, partial, reader, limit - reader.pos, events[i], hashed, pub, earlier);
      if end != Blocked {
        return;
      }
      if size < limit {
        EndNotSeen(taken, i, size, STAGE_BUFFER_BYTES, reader.pos);
      }
    }
    end := if reader.pos == limit then Copied else Blocked;
  }

  lemma UnpublishedAtFirst(pub: Publication, history: seq<Contents>)
    ensures pub.UnpublishedSince(history, history)
  {
  }

  /** A whole body within the ceiling, of the announced length if one was announced, with the expected digest. */
  ghost predicate IsPublishable(p: Primitives, body: Stream, contentLength: int, expected: string, maximum: int) {
    && body.clean && |body.bytes| <= maximum && (contentLength >= 0 ==> |body.bytes| == contentLength)
    && Digest(p, body.bytes) == expected
  }

  /** A staging run fails before the rename only for one of these reasons. */
  ghost predicate RenameBlamed(
    p: Primitives, body: Stream, contentLength: int, expected: string, maximum: int, faults: StageFaults)
  {
    || faults.mode || !Faultless(faults.copy) || faults.sync || !faults.verify.None() || faults.rename
    || !IsPublishable(p, body, contentLength, expected, maximum)
  }

  /** After the rename only the sync of the directory can fail. */
  ghost predicate StageBlamed(
    p: Primitives, body: Stream, contentLength: int, expected: string, maximum: int, faults: StageFaults, renamed: bool)
  {
    if renamed then faults.openDirectory || faults.syncDirectory || faults.closeDirectory
    else RenameBlamed(p, body, contentLength, expected, maximum, faults)
  }

  /** What a finished publication leaves: the new content under the destination name, or the old. */
  ghost predicate Settled(pub: Publication, now: Contents, renamed: bool) {
    && (renamed ==> pub.IsComplete(now))
    && (!renamed ==> SameAt(pub.before, now, pub.name))
    && forall n :: n != pub.name && n != pub.partial ==> SameAt(pub.before, now, n)
  }

  /** Fills, checks, syncs, re-verifies and renames the partial; the caller cleans up. */
  method FillAndRename(p: Primitives, directory: Directory, file: File, body: Stream, contentLength: int,
    destination: string, partial: string, expected: string, maximum: Int64, faults: StageFaults, ghost pub: Publication)
    returns (v: Verified?, end: CopyEnd, renamed: bool)
    requires 0 < maximum < MAX_INT64
    requires pub == Publication(p, pub.before, Base(destination), partial, expected, maximum)
    requires partial != pub.name && partial !in pub.before
    requires file.content == [] && file.regular && file.open && directory.entries == pub.before[partial := []]
    modifies directory, file`content, file`offset
    ensures pub.SafeSince(old(directory.history), directory.history)
    ensures !renamed ==> pub.UnpublishedSince(old(directory.history), directory.history)
    ensures renamed ==>
      && !faults.mode && !faults.sync && faults.verify.CallsWork() && !faults.rename
      && IsPublishable(p, body, contentLength, expected, maximum) && file.content == body.bytes
    ensures end == Copied <==> v != null
    ensures end == CopyFailed ==> StageBlamed(p, body, contentLength, expected, maximum, faults, renamed)
    ensures faults.Complete(|body.bytes|, maximum) ==> end != Blocked
    ensures v != null ==>
      && renamed && fresh(v) && v.file == file && Records(p, v, destination, expected)
      && (faults.makeDirectory || faults.create || faults.CallsWork())
    ensures if renamed then directory.entries == pub.before[pub.name := file.content] && pub.IsComplete(directory.entries)
            else directory.entries == pub.before[partial := file.content]
  {
    hide Publication.IsSafe, Publication.IsUnpublished, Records;
    v, renamed := null, false;
    ghost var earlier := directory.history;
    pub.UnpublishedIsKept(earlier, earlier);
    if faults.mode {
      return null, CopyFailed, false;
    }
    var limit: Int64 := maximum + 1;
    var hashed;
    hashed, end := CopyToPartial(directory, file, partial, body, limit, faults.copy, pub);
    pub.UnpublishedIsKept(earlier, directory.history);
    if end != Copied {
      return null, end, false;
    }
    if |hashed| > maximum || (contentLength >= 0 && |hashed| != contentLength) || Digest(p, hashed) != expected {
      return null, CopyFailed, false;
    }
    if faults.sync {
      return null, CopyFailed, false;
    }
    v, end := VerifyDescriptor(p, file, destination, expected, faults.verify);
    if end != Copied {
      return null, end, false;
    }
    if faults.rename {
      return null, CopyFailed, false;
    }
    directory.Rename(partial, Base(destination));
    renamed := true;
    assert directory.entries == pub.before[pub.name := file.content];
    pub.PublishedIsSafe(directory.entries);
    if faults.openDirectory || faults.syncDirectory || faults.closeDirectory {
      return null, CopyFailed, true;
    }
  }

  /**
   At every step the destination holds its old content or a complete download; every error before
   the rename leaves it as it was; the cleanup never takes the destination away, and when it works
   no partial survives; the descriptor stays open exactly on success.
   */
  method PublishResponse(p: Primitives, directory: Directory, body: Stream, contentLength: int, destination: string,
    suffix: string, expected: string, maximum: Int64, faults: StageFaults)
    returns (v: Verified?, end: CopyEnd, renamed: bool, descriptor: File?)
    requires 0 < maximum < MAX_INT64
    modifies directory
    ensures
      var pub := Publication(
        p, old(directory.entries), Base(destination), PartialName(destination, suffix), expected, maximum);
      && pub.SafeSince(old(directory.history), directory.history)
      && Settled(pub, directory.entries, renamed)
      && (end != Blocked && !faults.remove && pub.partial !in pub.before ==> pub.partial !in directory.entries)
      && (faults.StopsBeforeRename() || !IsPublishable(p, body, contentLength, expected, maximum) ==>
            pub.KeptSince(old(directory.history), directory.history))
    ensures renamed ==> !faults.StopsBeforeRename() && IsPublishable(p, body, contentLength, expected, maximum)
    ensures end == Copied <==> v != null
    ensures end == CopyFailed ==>
      || faults.makeDirectory || faults.create || PartialName(destination, suffix) in old(directory.entries)
      || StageBlamed(p, body, contentLength, expected, maximum, faults, renamed)
    ensures faults.Complete(|body.bytes|, maximum) ==> end != Blocked
    ensures descriptor != null ==> fresh(descriptor)
    ensures end != Blocked ==> (v != null <==> descriptor != null && descriptor.open)
    ensures v != null ==>
      && renamed && v.file == descriptor && Records(p, v, destination, expected) && faults.CallsWork()
      && directory.entries == old(directory.entries)[Base(destination) := body.bytes]
  {
    var partial := PartialName(destination, suffix);
    ghost var pub := Publication(p, directory.entries, Base(destination), partial, expected, maximum);
    PartialIsNotDestination(destination, suffix);
    hide PartialName, Base, Records, StageBlamed, Publication.IsComplete, Publication.IsSafe;
    v, end, renamed, descriptor := null, CopyFailed, false, null;
    if faults.makeDirectory || faults.create || partial in directory.entries {
      return;
    }
    ghost var earlier := directory.history;
    descriptor := directory.Create(partial);
    ghost var created := directory.history;
    assert pub.UnpublishedSince(earlier, created);
    pub.PartialIsSafe(directory.entries);
    hide SameAt, Publication.IsUnpublished, Publication.UnpublishedSince, Publication.KeptSince, IsPublishable;
    v, end, renamed := FillAndRename(
      p, directory, descriptor, body, contentLength, destination, partial, expected, maximum, faults, pub);
    FilledIsSettled(pub, directory.entries, descriptor.content, renamed);
    ghost var filled := directory.history;
    if !renamed {
      UnpublishedTogether(pub, earlier, created, filled);
    }
    if end == Blocked {
      return;
    }
    if end != Copied {
      descriptor.open := false;
    }
    Cleanup(directory, partial, faults.remove, pub, descriptor.content, renamed);
    if !renamed {
      UnpublishedTogether(pub, earlier, filled, directory.history);
    }
  }

  lemma UnpublishedTogether(pub: Publication, a: seq<Contents>, b: seq<Contents>, c: seq<Contents>)
    requires pub.partial != pub.name && pub.UnpublishedSince(a, b) && pub.UnpublishedSince(b, c)
    ensures pub.UnpublishedSince(a, c) && pub.KeptSince(a, c)
  {
    hide Publication.IsUnpublished;
    pub.UnpublishedIsKept(a, c);
  }

  lemma FilledIsSettled(pub: Publication, now: Contents, content: seq<Byte>, renamed: bool)
    requires pub.partial != pub.name && pub.partial !in pub.before
    requires if renamed then now == pub.before[pub.name := content] && pub.IsComplete(now)
             else now == pub.before[pub.partial := content]
    ensures Settled(pub, now, renamed)
  {
    hide Publication.IsComplete;
  }

  /** The deferred removal: it takes away a partial that is still there, and nothing else. */
  method Cleanup(directory: Directory, partial: string, fails: bool, ghost pub: Publication,
    ghost content: seq<Byte>, ghost renamed: bool)
    requires partial == pub.partial != pub.name && partial !in pub.before
    requires if renamed then directory.entries == pub.before[pub.name := content] && pub.IsComplete(directory.entries)
             else directory.entries == pub.before[partial := content]
    modifies directory
    ensures renamed ==> directory.entries == old(directory.entries)
    ensures !renamed && !fails ==> directory.entries == pub.before
    ensures !fails ==> partial !in directory.entries
    ensures Settled(pub, directory.entries, renamed)
    ensures pub.SafeSince(old(directory.history), directory.history)
    ensures !renamed ==> pub.UnpublishedSince(old(directory.history), directory.history)
  {
    hide Publication.IsComplete, Publication.IsSafe;
    directory.Remove(partial, fails);
    if renamed {
      assert directory.entries == old(directory.entries);
      pub.PublishedIsSafe(directory.entries);
    } else {
      pub.PartialIsSafe(directory.entries);
    }
  }

  datatype Response = Response(status: int, contentLength: int, body: Stream)

  /** The request and the response pass the checks made before anything is created. */
  predicate IsAdmitted(cancelled: bool, hasClient: bool, response: Option<Response>, expected: string, maximum: Int64) {
    && !cancelled && hasClient && 0 < maximum < MAX_INT64 && ValidDigest(expected)
    && response.Some? && 200 <= response.value.status < 300 && response.value.contentLength <= maximum
  }

  /** `response` is absent when the download fails. What is not admitted touches nothing; the rest is published as above. */
  method Stage(p: Primitives, cancelled: bool, hasClient: bool, response: Option<Response>, directory: Directory,
    destination: string, suffix: string, expected: string, maximum: Int64, faults: StageFaults)
    returns (v: Verified?, end: CopyEnd)
    modifies directory
    ensures end == Copied <==> v != null
    ensures
      var pub := Publication(
        p, old(directory.entries), Base(destination), PartialName(destination, suffix), expected, maximum);
      && pub.SafeSince(old(directory.history), directory.history)
      && (|| faults.StopsBeforeRename() || !IsAdmitted(cancelled, hasClient, response, expected, maximum)
          || !IsPublishable(p, response.value.body, response.value.contentLength, expected, maximum)
          ==> pub.KeptSince(old(directory.history), directory.history))
    ensures v != null ==>
      && IsAdmitted(cancelled, hasClient, response, expected, maximum) && Records(p, v, destination, expected)
      && faults.CallsWork()
      && IsPublishable(p, response.value.body, response.value.contentLength, expected, maximum)
      && directory.entries == old(directory.entries)[Base(destination) := response.value.body.bytes]
    ensures !IsAdmitted(cancelled, hasClient, response, expected, maximum) ==>
      end == CopyFailed && directory.entries == old(directory.entries) && directory.history == old(directory.history)
    ensures IsAdmitted(cancelled, hasClient, response, expected, maximum) ==>
      && (end == CopyFailed ==>
            || faults.makeDirectory || faults.create || PartialName(destination, suffix) in old(directory.entries)
            || RenameBlamed(p, response.value.body, response.value.contentLength, expected, maximum, faults)
            || faults.openDirectory || faults.syncDirectory || faults.closeDirectory)
      && (faults.Complete(|response.value.body.bytes|, maximum) ==> end != Blocked)
  {
    hide Base, Records, ValidDigest, PartialName, RenameBlamed, IsPublishable, Publication.IsSafe, SameAt;
    v, end := null, CopyFailed;
    if cancelled || !hasClient || maximum <= 0 || maximum == MAX_INT64 || !ValidDigest(expected) || response.None? {
      return;
    }
    var reply := response.value;
    if reply.status < 200 || reply.status >= 300 || reply.contentLength > maximum {
      return;
    }
    var renamed, descriptor;
    v, end, renamed, descriptor := PublishResponse(
      p, directory, reply.body, reply.contentLength, destination, suffix, expected, maximum, faults);
  }
}
