/**
 The guarded sequence from inspection to reboot, run against an environment that decides
 every outcome and may change kernel state and image content between any two calls.
 */
module Execution {
  import opened Basics
  import opened Text
  import opened Lexicographic
  import opened Paths
  import opened Sysfs
  import opened Model
  import opened Observer
  import opened Confirmation
  import opened Policy
  import opened Streams
  import opened Images
  import System

  datatype Call =
    | Inspect | VerifyImage | Confirm
    | Mlockall | Swapoff | EnableSysRq | RemountReadOnly
    | OpenTarget | WriteVerified | Fdatasync | FlushBlock
    | SysRqSync | SysRqReboot

  const GATE_CALLS: seq<Call> := [Inspect, VerifyImage, Confirm]
  const LIVE_CALLS: seq<Call> := [Mlockall, Swapoff, EnableSysRq, RemountReadOnly]
  const WRITE_CALLS: seq<Call> := [OpenTarget, WriteVerified, Fdatasync, FlushBlock]
  const REBOOT_CALLS: seq<Call> := [SysRqSync, SysRqReboot]

  /** The fixed order of boundary calls: seven in rescue mode, thirteen in live mode. */
  function Order(mode: Mode): seq<Call> {
    if mode == Live then GATE_CALLS + LIVE_CALLS + WRITE_CALLS + REBOOT_CALLS else GATE_CALLS + WRITE_CALLS
  }

  /** The two orders, spelled out. */
  lemma OrderInFull(mode: Mode)
    ensures Order(mode) ==
      if mode == Live then
        [Inspect, VerifyImage, Confirm, Mlockall, Swapoff, EnableSysRq, RemountReadOnly,
         OpenTarget, WriteVerified, Fdatasync, FlushBlock, SysRqSync, SysRqReboot]
      else [Inspect, VerifyImage, Confirm, OpenTarget, WriteVerified, Fdatasync, FlushBlock]
  {
  }

  function LivePart(mode: Mode): seq<Call> {
    if mode == Live then LIVE_CALLS else []
  }

  function RebootPart(mode: Mode): seq<Call> {
    if mode == Live then REBOOT_CALLS else []
  }

  /** Up to the opening of the target, a run is a proper prefix of the order and writes nothing. */
  lemma BeforeTheWrite(mode: Mode, trace: seq<Call>)
    requires trace <= GATE_CALLS + LivePart(mode) + [OpenTarget]
    ensures trace < Order(mode) && WriteVerified !in trace
  {
    var early := GATE_CALLS + LivePart(mode) + [OpenTarget];
    assert Order(mode) == early + WRITE_CALLS[1..] + RebootPart(mode);
    assert forall i :: 0 <= i < |early| ==> early[i] != WriteVerified;
  }

  lemma WriteCallsSplit(made: seq<Call>, last: seq<Call>)
    ensures made + [WriteVerified] + WRITE_CALLS[2..] + last == made + WRITE_CALLS[1..] + last
    ensures made + [WriteVerified] <= made + WRITE_CALLS[1..] + last
    ensures made + [WriteVerified] != made + WRITE_CALLS[1..] + last
  {
    assert WRITE_CALLS[1..] == [WriteVerified] + WRITE_CALLS[2..];
  }

  lemma OrderEndsWithTheWrite(mode: Mode)
    ensures GATE_CALLS + LivePart(mode) + [OpenTarget] + WRITE_CALLS[1..] + RebootPart(mode) == Order(mode)
  {
  }

  /** Everything outside the program. A flag set to true is a call that fails. */
  datatype Environment = Environment(
    observations: System.Observations,
    openImage: bool, verify: VerifyFaults,
    mlockall: bool, swapoff: bool, enableSysRq: bool, remount: bool, polls: nat -> Kernel,
    reopening: System.Reopening,
    contentAtWrite: seq<Byte>, write: WriteFaults,
    fdatasync: bool, flushBlock: bool, sysRqSync: bool, sysRqReboot: bool)

  /** Calls whose outcome is one flag of the environment. */
  predicate IsPlain(call: Call) {
    call in {Mlockall, Swapoff, EnableSysRq, Fdatasync, FlushBlock, SysRqSync, SysRqReboot}
  }

  predicate Fault(env: Environment, call: Call) {
    match call
    case Mlockall => env.mlockall
    case Swapoff => env.swapoff
    case EnableSysRq => env.enableSysRq
    case Fdatasync => env.fdatasync
    case FlushBlock => env.flushBlock
    case SysRqSync => env.sysRqSync
    case SysRqReboot => env.sysRqReboot
    case _ => false
  }

  ghost predicate LiveBlamed(env: Environment, call: Call) {
    call in LIVE_CALLS
    && if call == RemountReadOnly then !System.RemountSucceeds(env.remount, env.polls) else Fault(env, call)
  }

  /** What is recorded of a call: it succeeded, it was rejected, or it has not returned. */
  datatype Reply = Succeeded | Rejected | Pending

  function ReplyOf(ok: bool): Reply {
    if ok then Succeeded else Rejected
  }

  datatype Outcome = Done(writtenBytes: nat) | Stopped | Running

  predicate SameIdentity(request: System.Request, inspection: Inspection, path: string, sha256: string, size: nat) {
    && inspection.mode == request.mode
    && inspection.target.canonicalPath == request.targetPath
    && inspection.image.path == request.imagePath
    && inspection.image.sha256 == request.sha256
    && inspection.image.uncompressedBytes == request.expectedBytes
    && path == inspection.image.path
    && sha256 == inspection.image.sha256
    && size == inspection.image.compressedBytes
  }

  /** What must hold before a single byte is written. */
  ghost predicate Cleared(
    request: System.Request, env: Environment, sum: string -> Sum, inspection: Inspection, host: HostObservation)
  {
    && System.Justified(request, env.observations, sum, inspection, host)
    && inspection.target.canonicalPath == request.targetPath
    && request.confirmation == inspection.confirmationToken
    && System.Undrifted(env.reopening, inspection.target)
    && (request.mode == Live ==> request.reboot && System.RemountSucceeds(env.remount, env.polls))
  }

  /**
   In rescue mode the devices of the target as it is reopened, at the moment of writing, are apart
   from everything the observed mounts, swap areas and image source rest on.
   */
  lemma IsolatedWhenWritten(
    request: System.Request, env: Environment, sum: string -> Sum, inspection: Inspection, host: HostObservation, n: string)
    requires Cleared(request, env, sum, inspection, host) && request.mode == Rescue
    requires n != "" && Reaches(env.reopening.kernel.block, inspection.target.kName, n)
    ensures
      var o := env.observations;
      && o.mounted.mountinfo.Some? && o.swap.swaps.Some?
      && (forall i :: 0 <= i < |o.mounted.mountinfo.value| ==> !MountUses(o.mounted, o.mounted.mountinfo.value[i], n))
      && (forall i :: 1 <= i < |o.swap.swaps.value| ==> !SwapUses(o.swap, o.swap.swaps.value[i], n))
      && !SourceUses(o.source, request.imagePath, n)
  {
    var o, t := env.observations, inspection.target;
    hide MountUses, SwapUses, SourceUses, IsTarget, Gates, AllHold, ConfirmationToken, System.Observed, Reaches;
    System.RescueIsolation(request, o, sum, inspection, host);
    SameDevices(o.target, request.targetPath, env.reopening.kernel, t.canonicalPath, t);
    assert System.OfTarget(o, t, n);
  }

  lemma SameDevices(before: Kernel, path: string, after: Kernel, path': string, t: TargetIdentity)
    requires IsTarget(before, path, t) && IsTarget(after, path', t)
    ensures forall n :: Reaches(before.block, t.kName, n) <==> Reaches(after.block, t.kName, n)
  {
    hide Reaches, Resolvable, BlockPath, Sectors, Clean, Base, InDev;
    assert Closure(before.block, t.kName) == Elements(t.descendants) == Closure(after.block, t.kName);
  }

  /** A write happens only to the target and with the image for which the operator obtained the token. */
  lemma ConsentCoversTheWrite(
    request: System.Request, env: Environment, sum: string -> Sum, inspection: Inspection, host: HostObservation,
    shown: TargetIdentity, image: ImageIdentity)
    requires Cleared(request, env, sum, inspection, host)
    requires ConfirmationToken(shown, image, sum) == Ok(request.confirmation)
    requires NoCollision(inspection.target, inspection.image, shown, image, sum)
    ensures SameBoundFields(inspection.target, inspection.image, shown, image)
    ensures request.targetPath == shown.canonicalPath && request.sha256 == image.sha256
            && request.expectedBytes == image.uncompressedBytes
  {
    hide Accepted, NoCollision, ConfirmationToken, Gates, AllHold, System.Observed, IsTarget, System.Undrifted;
    ConfirmedTokenFixesIdentity(inspection.target, inspection.image, shown, image, sum);
  }

  class Machine {
    const primitives: Primitives
    const sum: string -> Sum
    const env: Environment
    const file: File    // what opening the image path yields
    const disk: Disk    // what opening the target path yields
    var trace: seq<Call>
    var results: seq<Reply>

    constructor (primitives: Primitives, sum: string -> Sum, env: Environment, file: File, disk: Disk)
      ensures this.primitives == primitives && this.sum == sum && this.env == env
      ensures this.file == file && this.disk == disk && trace == [] && results == []
    {
      this.primitives, this.sum, this.env, this.file, this.disk := primitives, sum, env, file, disk;
      trace, results := [], [];
    }

    /** What is recorded of each plain system call is what it did. */
    ghost predicate Recorded()
      reads this
    {
      |results| == |trace|
      && forall i :: 0 <= i < |trace| && IsPlain(trace[i]) ==> results[i] == ReplyOf(!Fault(env, trace[i]))
    }

    /** Every call made so far succeeded. */
    ghost predicate AllSucceeded()
      reads this
    {
      Recorded() && forall i :: 0 <= i < |results| ==> results[i] == Succeeded
    }

    /** Every call before the last succeeded. */
    ghost predicate StoppedAtFirstFailure()
      reads this
    {
      Recorded() && forall i :: 0 <= i < |results| - 1 ==> results[i] == Succeeded
    }

    ghost function LastCall(): Call
      reads this
    {
      if trace == [] then Inspect else trace[|trace| - 1]
    }

    ghost predicate LastFailed()
      reads this
    {
      trace != [] && |results| == |trace| && results[|results| - 1] == Rejected
    }

    ghost predicate LastPending()
      reads this
    {
      trace != [] && |results| == |trace| && results[|results| - 1] == Pending
    }

    ghost predicate Unjustified(request: System.Request) {
      forall i, h :: !System.Justified(request, env.observations, sum, i, h)
    }

    /** Consent was given, live preparation was proven, and the target had not drifted. */
    ghost predicate Passed(request: System.Request, inspection: Inspection) {
      && request.confirmation == inspection.confirmationToken
      && System.Opens(env.reopening, inspection.target)
      && (request.mode == Live ==> request.reboot && System.RemountSucceeds(env.remount, env.polls))
    }

    /** A condition of the environment or the request that makes `call` fail. */
    ghost predicate Blamed(
      call: Call, request: System.Request, content: seq<Byte>, room: int, inspection: Option<Inspection>)
    {
      match call
      case Inspect => Unjustified(request)
      case VerifyImage =>
        !ValidDigest(request.sha256) || env.openImage || !env.verify.None() || !file.regular
        || Digest(primitives, content) != request.sha256
      case Confirm => inspection.Some? && request.confirmation != inspection.value.confirmationToken
      case RemountReadOnly => !System.RemountSucceeds(env.remount, env.polls)
      case OpenTarget => inspection.Some? && !System.Opens(env.reopening, inspection.value.target)
      case WriteVerified =>
        !env.write.None() || |env.contentAtWrite| != |content| || Digest(primitives, env.contentAtWrite) != request.sha256
        || !Image(FormatOf(content)).clean || |Image(FormatOf(content)).bytes| != request.expectedBytes
        || request.expectedBytes <= 0 || room < request.expectedBytes
      case _ => Fault(env, call)
    }

    /** A run stops because its last call failed for cause, the two identities differ, or reboot was not approved. */
    ghost predicate Explained(request: System.Request, content: seq<Byte>, room: int, inspection: Option<Inspection>)
      reads this
    {
      || (LastFailed() && Blamed(LastCall(), request, content, room, inspection))
      || (trace == [Inspect, VerifyImage]
          && (Clean(request.targetPath) != request.targetPath || env.observations.imageSize != Some(|content|)))
      || (trace == GATE_CALLS && request.mode == Live && !request.reboot)
    }

    /** The event lists are long enough for the verification and the write to come to an end. */
    ghost predicate Complete(request: System.Request, content: seq<Byte>) {
      && env.verify.Complete(|content|)
      && (request.expectedBytes > 0 ==>
            env.write.Complete(|env.contentAtWrite|, |Image(FormatOf(content)).bytes|, request.expectedBytes))
    }

    /** No call has a cause to fail, the identities agree, reboot is approved and the event lists suffice. */
    ghost predicate Favourable(request: System.Request, content: seq<Byte>, room: int, inspection: Inspection) {
      && (forall call :: !Blamed(call, request, content, room, Some(inspection)))
      && Clean(request.targetPath) == request.targetPath && env.observations.imageSize == Some(|content|)
      && (request.mode == Live ==> request.reboot)
      && Complete(request, content)
    }

    lemma ExplainedIsNotFavourable(
      request: System.Request, content: seq<Byte>, room: int, inspection: Option<Inspection>, i: Inspection)
      requires Explained(request, content, room, inspection) && (inspection.Some? ==> inspection.value == i)
      ensures !Favourable(request, content, room, i)
    {
      hide Complete, Clean, Digest, Unjustified, FormatOf, System.Opens, System.RemountSucceeds;
      assert Blamed(LastCall(), request, content, room, inspection) ==> Blamed(LastCall(), request, content, room, Some(i));
    }

    lemma GateCauses(request: System.Request, content: seq<Byte>, room: int, inspection: Inspection)
      ensures !System.Confirms(request.confirmation, inspection.confirmationToken) ==>
        Blamed(Confirm, request, content, room, Some(inspection))
      ensures forall call :: LiveBlamed(env, call) ==> Blamed(call, request, content, room, Some(inspection))
    {
      hide System.Opens, System.RemountSucceeds;
    }

    lemma OpenCause(request: System.Request, content: seq<Byte>, room: int, inspection: Inspection)
      ensures !System.Opens(env.reopening, inspection.target) ==>
        Blamed(OpenTarget, request, content, room, Some(inspection))
    {
      hide System.Opens, System.RemountSucceeds;
    }

    lemma PlainCause(
      call: Call, request: System.Request, content: seq<Byte>, room: int, inspection: Option<Inspection>)
      requires IsPlain(call) && Fault(env, call)
      ensures Blamed(call, request, content, room, inspection)
    {
    }

    method Note(call: Call, reply: Reply)
      requires AllSucceeded() && (IsPlain(call) ==> reply == ReplyOf(!Fault(env, call)))
      modifies this
      ensures trace == old(trace) + [call] && StoppedAtFirstFailure()
      ensures (AllSucceeded() <==> reply == Succeeded) && LastCall() == call
      ensures (LastFailed() <==> reply == Rejected) && (LastPending() <==> reply == Pending)
    {
      trace, results := trace + [call], results + [reply];
      assert results[|results| - 1] == reply;
    }

    /** A run through the whole order means that no system call of the order failed. */
    lemma NoCallFailed(mode: Mode)
      requires AllSucceeded() && trace == Order(mode)
      ensures !env.fdatasync && !env.flushBlock
      ensures mode == Live ==>
        !env.mlockall && !env.swapoff && !env.enableSysRq && !env.sysRqSync && !env.sysRqReboot
    {
      OrderInFull(mode);
      var n := if mode == Live then 9 else 5;
      assert trace[n] == Fdatasync && trace[n + 1] == FlushBlock;
      if mode == Live {
        assert trace[3] == Mlockall && trace[4] == Swapoff && trace[5] == EnableSysRq;
        assert trace[11] == SysRqSync && trace[12] == SysRqReboot;
      }
    }

    /** A live run that has come to the write has locked memory, disabled swap and enabled SysRq before. */
    lemma PreparedBeforeTheWrite()
      requires StoppedAtFirstFailure() && trace <= Order(Live) && WriteVerified in trace
      ensures !env.mlockall && !env.swapoff && !env.enableSysRq
    {
      OrderInFull(Live);
      hide Order;
      var i :| 0 <= i < |trace| && trace[i] == WriteVerified;
      assert trace[i] == Order(Live)[i] && i == 8;
      assert trace[3] == Mlockall && trace[4] == Swapoff && trace[5] == EnableSysRq;
    }

    lemma RejectedIsLast()
      requires StoppedAtFirstFailure()
      ensures |results| == |trace| && forall i :: 0 <= i < |results| && results[i] == Rejected ==> i == |trace| - 1
    {
    }

    /** A whole image decoded to the end, when the magic leads. */
    lemma DecodedToTheEnd(before: DiskState, after: DiskState, request: System.Request, content: seq<Byte>)
      requires WroteAll(before, after, request, FormatOf(content)) && ZSTD_MAGIC <= content
      ensures primitives.zstd(env.contentAtWrite).clean
      ensures |primitives.zstd(env.contentAtWrite).bytes| == request.expectedBytes
    {
      hide Digest, HoldsPrefix;
    }

    /** The stream the image expands to when it is written. */
    ghost function Image(format: Format): Stream {
      Expansion(primitives, format, env.contentAtWrite)
    }

    /** Untouched, or the old content under a prefix of the expansion of content with the right digest. */
    ghost predicate WroteOnly(before: DiskState, after: DiskState, request: System.Request, format: Format) {
      || after.bytes == before.bytes
      || (&& Digest(primitives, env.contentAtWrite) == request.sha256
          && before.offset <= after.offset <= before.offset + request.expectedBytes
          && HoldsPrefix(before, after, Image(format).bytes, after.offset - before.offset))
    }

    /** The whole expansion, of exactly the expected length, over the old content. */
    ghost predicate WroteAll(before: DiskState, after: DiskState, request: System.Request, format: Format) {
      && Digest(primitives, env.contentAtWrite) == request.sha256
      && Image(format).clean && |Image(format).bytes| == request.expectedBytes
      && HoldsPrefix(before, after, Image(format).bytes, request.expectedBytes)
    }

    /** Read off the disk: a raw image verbatim, or the decoded frames of a zstd image, then the old suffix. */
    lemma WholeImageOnDisk(before: DiskState, after: DiskState, request: System.Request, content: seq<Byte>)
      requires before.offset == 0 && WroteAll(before, after, request, FormatOf(content))
      ensures
        var image := if content[..Min(4, |content|)] == ZSTD_MAGIC then primitives.zstd(env.contentAtWrite).bytes
                     else env.contentAtWrite;
        |image| == request.expectedBytes <= |before.bytes| && after.bytes == image + before.bytes[request.expectedBytes..]
      ensures content[..Min(4, |content|)] == ZSTD_MAGIC ==> primitives.zstd(env.contentAtWrite).clean
    {
      hide Digest;
      var image := Image(FormatOf(content)).bytes;
      assert image[..|image|] == image;
      assert ZSTD_MAGIC <= content <==> content[..Min(4, |content|)] == ZSTD_MAGIC;
    }

    /** Observation, verification, and the comparison of what each one saw. */
    method Prepare(request: System.Request, ghost room: int)
      returns (v: Verified?, inspection: Option<Inspection>, r: Outcome, ghost host: HostObservation)
      requires trace == [] && results == [] && !file.open
      modifies this, file
      ensures StoppedAtFirstFailure() && trace <= [Inspect, VerifyImage] && file.content == old(file.content)
      ensures v == null <==> inspection.None?
      ensures v == null ==> !r.Done? && (r == Stopped ==> !file.open && Explained(request, file.content, room, None))
      ensures v == null && r == Running ==> LastPending() && !Complete(request, file.content)
      ensures v != null ==>
        && trace == [Inspect, VerifyImage] && AllSucceeded()
        && fresh(v) && v.file == file && v.sha256 == request.sha256 && v.format == FormatOf(file.content)
        && v.compressedBytes == |file.content| && Digest(primitives, file.content) == request.sha256
        && !env.openImage && env.verify.CallsWork()
        && System.Justified(request, env.observations, sum, inspection.value, host)
        && inspection.value.target.canonicalPath == request.targetPath
        && env.observations.imageSize == Some(|file.content|)
    {
      hide System.Justified;
      v, r := null, Stopped;
      inspection, host := System.Inspect(request, env.observations, sum);
      Note(Inspect, ReplyOf(inspection.Some?));
      if inspection.None? {
        return;
      }
      var end;
      v, end := Verify(primitives, file, env.openImage, request.imagePath, request.sha256, env.verify);
      Note(VerifyImage, if end == Blocked then Pending else ReplyOf(v != null));
      if v == null {
        inspection := None;
        r := if end == Blocked then Running else Stopped;
        return;
      }
      if !SameIdentity(request, inspection.value, v.path, v.sha256, v.compressedBytes) {
        OnlyPathOrSizeCanDiffer(request, inspection.value, host, v.compressedBytes);
        v.Close();
        v, inspection := null, None;
      } else {
        ObservedSizeIsVerified(request, inspection.value, host, v.compressedBytes);
      }
    }

    lemma ObservedSizeIsVerified(request: System.Request, inspection: Inspection, host: HostObservation, size: nat)
      requires System.Justified(request, env.observations, sum, inspection, host)
      requires inspection.image.compressedBytes == size
      ensures env.observations.imageSize == Some(size)
    {
      hide System.Observed, IsTarget, Gates, AllHold, ConfirmationToken;
    }

    lemma OnlyPathOrSizeCanDiffer(request: System.Request, inspection: Inspection, host: HostObservation, size: nat)
      requires System.Justified(request, env.observations, sum, inspection, host)
      requires !SameIdentity(request, inspection, request.imagePath, request.sha256, size)
      ensures Clean(request.targetPath) != request.targetPath || env.observations.imageSize != Some(size)
    {
      hide System.Observed, Gates, AllHold, ConfirmationToken, Clean, Base, InDev, IsRelated;
    }

    /** The four preparations of live mode, in order, stopping at the first that fails. */
    method PrepareLive(mode: Mode) returns (ok: bool)
      requires AllSucceeded()
      modifies this
      ensures StoppedAtFirstFailure()
      ensures old(trace) <= trace <= old(trace) + LivePart(mode)
      ensures !ok ==> LastFailed() && LiveBlamed(env, LastCall())
      ensures ok ==>
        && AllSucceeded() && trace == old(trace) + LivePart(mode)
        && (mode == Live ==> System.RemountSucceeds(env.remount, env.polls))
    {
      hide System.RemountSucceeds;
      if mode != Live {
        return true;
      }
      for n := 0 to |LIVE_CALLS|
        invariant AllSucceeded() && trace == old(trace) + LIVE_CALLS[..n]
        invariant n == 4 ==> System.RemountSucceeds(env.remount, env.polls)
      {
        ok := RunLive(LIVE_CALLS[n]);
        Note(LIVE_CALLS[n], ReplyOf(ok));
        assert LIVE_CALLS[..n + 1] == LIVE_CALLS[..n] + [LIVE_CALLS[n]];
        if !ok {
          return;
        }
      }
      ok := true;
    }

    method RunLive(call: Call) returns (ok: bool)
      ensures IsPlain(call) && call in LIVE_CALLS ==> ok == !Fault(env, call)
      ensures !ok && call in LIVE_CALLS ==> LiveBlamed(env, call)
      ensures ok && call == RemountReadOnly ==> System.RemountSucceeds(env.remount, env.polls)
    {
      hide System.RemountSucceeds;
      match call {
        case Mlockall => ok := !env.mlockall;
        case Swapoff => ok := !env.swapoff;
        case EnableSysRq => ok := !env.enableSysRq;
        case RemountReadOnly => ok := System.RemountReadOnly(env.remount, env.polls);
        case _ => ok := false;
      }
    }

    /** Kernel sync, then reboot; the last calls of a live run. */
    method RebootLive(mode: Mode) returns (ok: bool)
      requires AllSucceeded()
      modifies this
      ensures StoppedAtFirstFailure()
      ensures old(trace) <= trace <= old(trace) + RebootPart(mode)
      ensures ok <==> AllSucceeded() && trace == old(trace) + RebootPart(mode)
      ensures !ok ==> LastFailed() && IsPlain(LastCall()) && Fault(env, LastCall())
    {
      if mode != Live {
        return true;
      }
      Note(SysRqSync, ReplyOf(!env.sysRqSync));
      if env.sysRqSync {
        return false;
      }
      Note(SysRqReboot, ReplyOf(!env.sysRqReboot));
      ok := !env.sysRqReboot;
    }

    /** After the stream: data sync, flush and, in live mode, reboot. */
    method Finish(mode: Mode) returns (ok: bool)
      requires AllSucceeded()
      modifies this
      ensures StoppedAtFirstFailure()
      ensures old(trace) <= trace <= old(trace) + WRITE_CALLS[2..] + RebootPart(mode)
      ensures ok <==> AllSucceeded() && trace == old(trace) + WRITE_CALLS[2..] + RebootPart(mode)
      ensures !ok ==> LastFailed() && IsPlain(LastCall()) && Fault(env, LastCall())
    {
      Note(Fdatasync, ReplyOf(!env.fdatasync));
      if env.fdatasync {
        return false;
      }
      Note(FlushBlock, ReplyOf(!env.flushBlock));
      if env.flushBlock {
        return false;
      }
      assert trace == old(trace) + WRITE_CALLS[2..];
      ok := RebootLive(mode);
    }

    /** Streams the held source, whose content is now whatever the outside world made of it. */
    method WriteImage(request: System.Request, v: Verified, ghost content: seq<Byte>, ghost room: int,
      ghost inspection: Inspection)
      returns (written: WriteOutcome)
      requires disk.Valid() && v.file == file && v.sha256 == request.sha256
      requires v.compressedBytes == |content| && v.format == FormatOf(content) && room == |disk.bytes| - disk.offset
      modifies file, disk`bytes, disk`offset, disk`marks, disk`syncs
      ensures file.open == old(file.open)
      ensures written.Refused? ==>
        Blamed(WriteVerified, request, content, room, Some(inspection))
      ensures written.StillRunning? ==> !Complete(request, content)
      ensures WroteOnly(old(disk.State()), disk.State(), request, v.format)
      ensures written.Written? ==> env.write.CallsWork(v.format)
      ensures written.Written? ==>
        WroteAll(old(disk.State()), disk.State(), request, v.format) && written.writtenBytes == request.expectedBytes
    {
      file.content := env.contentAtWrite;
      ghost var before := disk.State();
      var log;
      written, log := Write(primitives, v, disk, request.expectedBytes, env.write);
      WriteIsEnough(request, v, before, written, log);
      hide WroteOnly, WroteAll, Streamed;
    }

    /** From the open target to the end: stream, data sync, flush, reboot. */
    method WriteOut(request: System.Request, v: Verified, ghost content: seq<Byte>, ghost room: int,
      ghost inspection: Inspection)
      returns (r: Outcome)
      requires AllSucceeded() && disk.Valid() && v.file == file && v.sha256 == request.sha256
      requires v.compressedBytes == |content| && v.format == FormatOf(content) && room == |disk.bytes| - disk.offset
      modifies this, file, disk`bytes, disk`offset, disk`marks, disk`syncs
      ensures StoppedAtFirstFailure() && file.open == old(file.open)
      ensures WriteVerified in trace
      ensures trace <= old(trace) + WRITE_CALLS[1..] + RebootPart(request.mode)
      ensures r.Done? <==>
        AllSucceeded() && trace == old(trace) + WRITE_CALLS[1..] + RebootPart(request.mode)
      ensures r == Stopped ==>
        LastFailed() && Blamed(LastCall(), request, content, room, Some(inspection))
      ensures r == Running ==> LastPending() && !Complete(request, content)
      ensures WroteOnly(old(disk.State()), disk.State(), request, v.format)
      ensures r.Done? ==> env.write.CallsWork(v.format)
      ensures r.Done? ==>
        WroteAll(old(disk.State()), disk.State(), request, v.format) && r.writtenBytes == request.expectedBytes
    {
      assert !IsPlain(WriteVerified);
      hide WroteOnly, WroteAll, LastCall, Blamed, Fault, Recorded, AllSucceeded, StoppedAtFirstFailure, FormatOf;
      hide IsPlain, Complete, LastPending;
      WriteCallsSplit(trace, RebootPart(request.mode));
      var written := WriteImage(request, v, content, room, inspection);
      Note(WriteVerified, if written.StillRunning? then Pending else ReplyOf(written.Written?));
      if !written.Written? {
        return if written.StillRunning? then Running else Stopped;
      }
      var ok := Finish(request.mode);
      assert trace[|old(trace)|] == WriteVerified;
      if !ok {
        PlainCause(LastCall(), request, content, room, Some(inspection));
        return Stopped;
      }
      r := Done(written.writtenBytes);
    }

    lemma WriteIsEnough(request: System.Request, v: Verified, before: DiskState, r: WriteOutcome, log: seq<Progress>)
      requires v.file == file && v.sha256 == request.sha256 && file.content == env.contentAtWrite
      requires
        || (disk.State() == before && !r.Written? && log == [])
        || (v.Intact(primitives) && request.expectedBytes > 0
            && Streamed(before, disk.State(), SourceStream(primitives, v), request.expectedBytes, r, log))
      ensures |disk.bytes| == |before.bytes|
      ensures WroteOnly(before, disk.State(), request, v.format)
      ensures r.Written? ==> WroteAll(before, disk.State(), request, v.format) && r.writtenBytes == request.expectedBytes
    {
      hide Reported, Overlay, Expansion, Digest;
    }

    /** Opens the target under a second observation, writes, and closes it again. */
    method OpenAndWrite(request: System.Request, v: Verified, inspection: Inspection, ghost content: seq<Byte>,
      ghost room: int)
      returns (r: Outcome)
      requires trace == GATE_CALLS + LivePart(request.mode) && AllSucceeded() && disk.Valid() && !disk.open
      requires v.file == file && v.sha256 == request.sha256
      requires v.compressedBytes == |content| && v.format == FormatOf(content) && room == |disk.bytes| - disk.offset
      modifies this, file, disk
      ensures StoppedAtFirstFailure() && trace <= Order(request.mode)
      ensures r.Done? <==> AllSucceeded() && trace == Order(request.mode)
      ensures r != Running ==> !disk.open
      ensures r == Stopped ==>
        LastFailed() && Blamed(LastCall(), request, content, room, Some(inspection))
      ensures r == Running ==> LastPending() && !Complete(request, content)
      ensures WriteVerified in trace ==> System.Opens(env.reopening, inspection.target)
      ensures WriteVerified !in trace ==> disk.State() == old(disk.State())
      ensures WroteOnly(old(disk.State()), disk.State(), request, v.format)
      ensures r.Done? ==> env.write.CallsWork(v.format)
      ensures r.Done? ==>
        WroteAll(old(disk.State()), disk.State(), request, v.format) && r.writtenBytes == request.expectedBytes
    {
      assert !IsPlain(OpenTarget);
      hide WroteOnly, WroteAll, Order, LastCall, Blamed, Fault, IsPlain, Recorded, AllSucceeded;
      hide StoppedAtFirstFailure, System.Opens, FormatOf, Complete, LastPending;
      Untouched(disk.State(), request, v.format);
      OpenCause(request, content, room, inspection);
      var reopened := System.OpenTarget(env.reopening, inspection.target, disk);
      Note(OpenTarget, ReplyOf(reopened));
      BeforeTheWrite(request.mode, trace);
      if !reopened {
        return Stopped;
      }
      OrderEndsWithTheWrite(request.mode);
      r := WriteOut(request, v, content, room, inspection);
      if r != Running {
        disk.open := false;
      }
    }

    /** Consent and live preparation, then the target, under a held verified source. */
    method Guarded(request: System.Request, v: Verified, inspection: Inspection,
      ghost content: seq<Byte>, ghost room: int) returns (r: Outcome)
      requires trace == [Inspect, VerifyImage] && AllSucceeded() && disk.Valid() && !disk.open
      requires v.file == file && v.sha256 == request.sha256
      requires v.compressedBytes == |content| && v.format == FormatOf(content) && room == |disk.bytes| - disk.offset
      modifies this, file, disk
      ensures StoppedAtFirstFailure() && trace <= Order(request.mode)
      ensures r.Done? <==> AllSucceeded() && trace == Order(request.mode)
      ensures request.mode == Live && !request.reboot ==> trace <= GATE_CALLS
      ensures r != Running ==> !disk.open
      ensures r == Stopped ==> Explained(request, content, room, Some(inspection))
      ensures r == Running ==> LastPending() && !Complete(request, content)
      ensures WriteVerified in trace ==> Passed(request, inspection)
      ensures WriteVerified !in trace ==> disk.State() == old(disk.State())
      ensures WroteOnly(old(disk.State()), disk.State(), request, v.format)
      ensures r.Done? ==> env.write.CallsWork(v.format)
      ensures r.Done? ==>
        WroteAll(old(disk.State()), disk.State(), request, v.format) && r.writtenBytes == request.expectedBytes
    {
      assert !IsPlain(Confirm);
      hide WroteOnly, WroteAll, Order, LastCall, Blamed, LiveBlamed, Fault, IsPlain, Recorded, AllSucceeded;
      hide StoppedAtFirstFailure, System.Opens, System.RemountSucceeds, FormatOf, Complete, LastPending;
      Untouched(disk.State(), request, v.format);
      GateCauses(request, content, room, inspection);
      var confirmed := System.Confirms(request.confirmation, inspection.confirmationToken);
      Note(Confirm, ReplyOf(confirmed));
      assert trace == GATE_CALLS;
      BeforeTheWrite(request.mode, trace);
      if !confirmed || (request.mode == Live && !request.reboot) {
        return Stopped;
      }
      var ready := PrepareLive(request.mode);
      BeforeTheWrite(request.mode, trace);
      if !ready {
        return Stopped;
      }
      r := OpenAndWrite(request, v, inspection, content, room);
    }

    lemma Untouched(state: DiskState, request: System.Request, format: Format)
      ensures WroteOnly(state, state, request, format)
    {
    }

    lemma PassedIsCleared(request: System.Request, inspection: Inspection, host: HostObservation)
      requires System.Justified(request, env.observations, sum, inspection, host) && Passed(request, inspection)
      requires inspection.target.canonicalPath == request.targetPath
      ensures Cleared(request, env, sum, inspection, host)
    {
      hide System.Justified, System.Undrifted, System.RemountSucceeds;
    }

    /**
     Every run makes a prefix of the fixed order of calls and stops at the first failure; it
     succeeds exactly when it makes the whole order and every call succeeds. The target is written
     only after all the gates, holds its old bytes under a prefix of the verified expansion at worst
     and under the whole expansion on success, and both descriptors are closed on return. A stop has
     a named cause, an unfinished run has an event list that ended too early, and a favourable
     environment ends in success.
     */
    method Execute(request: System.Request)
      returns (r: Outcome, ghost inspection: Option<Inspection>, ghost host: HostObservation)
      requires trace == [] && results == [] && disk.Valid() && !disk.open && !file.open
      modifies this, file, disk
      ensures StoppedAtFirstFailure() && trace <= Order(request.mode)
      ensures r.Done? <==> AllSucceeded() && trace == Order(request.mode)
      ensures request.mode == Live && !request.reboot ==> trace <= GATE_CALLS
      ensures |results| == |trace| && forall i :: 0 <= i < |results| && results[i] == Rejected ==> i == |trace| - 1
      ensures r.Done? ==> !env.fdatasync && !env.flushBlock
      ensures r.Done? && request.mode == Live ==> !env.sysRqSync && !env.sysRqReboot
      ensures WriteVerified in trace && request.mode == Live ==> !env.mlockall && !env.swapoff && !env.enableSysRq
      ensures r.Done? && ZSTD_MAGIC <= old(file.content) ==>
        var decoded := primitives.zstd(env.contentAtWrite);
        decoded.clean && |decoded.bytes| == request.expectedBytes
      ensures r != Running ==> !file.open && !disk.open
      ensures r == Stopped ==> Explained(request, old(file.content), old(|disk.bytes| - disk.offset), inspection)
      ensures r == Running ==> LastPending() && !Complete(request, old(file.content))
      ensures forall i, h ::
        (System.Justified(request, env.observations, sum, i, h)
        && Favourable(request, old(file.content), old(|disk.bytes| - disk.offset), i)) ==> r == Done(request.expectedBytes)
      ensures WriteVerified in trace ==> inspection.Some? && Cleared(request, env, sum, inspection.value, host)
      ensures WriteVerified in trace ==>
        Digest(primitives, old(file.content)) == request.sha256 && env.observations.imageSize == Some(|old(file.content)|)
      ensures WriteVerified in trace ==> !env.openImage && env.verify.CallsWork()
      ensures WriteVerified !in trace ==> disk.State() == old(disk.State())
      ensures WroteOnly(old(disk.State()), disk.State(), request, FormatOf(old(file.content)))
      ensures r.Done? ==>
        && WroteAll(old(disk.State()), disk.State(), request, FormatOf(old(file.content)))
        && r.writtenBytes == request.expectedBytes <= inspection.value.target.sizeBytes
        && env.write.CallsWork(FormatOf(old(file.content)))
    {
      hide System.Justified, WroteOnly, WroteAll, Explained, Order, Recorded, AllSucceeded, StoppedAtFirstFailure;
      hide Passed, Cleared, Digest, FormatOf, Complete, Favourable, LastPending;
      Untouched(disk.State(), request, FormatOf(file.content));
      ghost var content, room, before := file.content, |disk.bytes| - disk.offset, disk.State();
      var v, found;
      v, found, r, host := Prepare(request, room);
      inspection := found;
      if v == null {
        BeforeTheWrite(request.mode, trace);
      } else {
        System.CommonGatesHold(request, env.observations, sum, found.value, host);
        r := Guarded(request, v, found.value, content, room);
        if WriteVerified in trace {
          PassedIsCleared(request, found.value, host);
        }
        if r != Running {
          v.Close();
        }
      }
      FavourableIsDone(request, content, room, inspection, host, r);
      RejectedIsLast();
      if r.Done? {
        NoCallFailed(request.mode);
        if ZSTD_MAGIC <= content {
          DecodedToTheEnd(before, disk.State(), request, content);
        }
      }
      if request.mode == Live && WriteVerified in trace {
        PreparedBeforeTheWrite();
      }
    }

    /** What stops a run or leaves it unfinished is exactly what a favourable environment rules out. */
    lemma FavourableIsDone(request: System.Request, content: seq<Byte>, room: int,
      inspection: Option<Inspection>, host: HostObservation, r: Outcome)
      requires r == Stopped ==> Explained(request, content, room, inspection)
      requires r == Running ==> !Complete(request, content)
      requires inspection.Some? ==> System.Justified(request, env.observations, sum, inspection.value, host)
      ensures forall i, h ::
        System.Justified(request, env.observations, sum, i, h) && Favourable(request, content, room, i) ==> r.Done?
    {
      hide System.Justified, Explained, Complete, Blamed, Clean;
      System.JustifiedIsUnique(request, env.observations, sum);
      forall i, h | System.Justified(request, env.observations, sum, i, h) && Favourable(request, content, room, i)
        ensures r.Done?
      {
        if r == Stopped {
          ExplainedIsNotFavourable(request, content, room, inspection, i);
        }
      }
    }
  }
}
