/**
 Runs that succeed. Under an environment in which nothing fails, the accepted rescue and live
 hosts of `Example` let a whole run through, for every raw image that fits the disk.
 */
module Runs {
  import opened Basics
  import opened Text
  import opened Paths
  import opened Model
  import opened Observer
  import opened Confirmation
  import Policy
  import opened Streams
  import opened Images
  import opened Execution
  import opened Example
  import System

  /** One read that delivers everything and reports the end. */
  function WholeRead(): seq<ReadEvent> {
    [ReadEvent(CAPACITY, true, false)]
  }

  function WholeCopy(): seq<CopyEvent> {
    [CopyEvent(ReadEvent(CAPACITY, false, false), WriteEvent(COPY_BUFFER_BYTES, false))]
  }

  function NoVerifyFaults(): VerifyFaults {
    VerifyFaults(false, false, WholeRead(), false, WholeRead(), false)
  }

  function NoWriteFaults(): WriteFaults {
    WriteFaults(false, false, false, WholeRead(), false, false, WholeCopy(), WholeRead(), false)
  }

  /** No call fails, the kernel does not change except that `after` follows the remount, nor does the image. */
  function Calm(k: Kernel, after: Kernel, name: string, content: seq<Byte>): Environment {
    Environment(
      Seen(k, |content|), false, NoVerifyFaults(),
      false, false, false, false, (i: nat) => after,
      System.Reopening(false, false, true, k, k, false, Number(name)),
      content, NoWriteFaults(),
      false, false, false, false)
  }

  lemma OneReadSuffices(size: nat)
    requires 0 < size <= CAPACITY
    ensures NoVerifyFaults().None() && NoVerifyFaults().Complete(size)
    ensures NoWriteFaults().None() && NoWriteFaults().Complete(size, size, size)
  {
    var whole, copy := WholeRead(), Reads(WholeCopy());
    assert Offered(whole, 0, 4) == 0 && Offered(whole, 1, 4) == 4;
    assert Offered(whole, 0, 1) == 0 && Offered(copy, 0, COPY_BUFFER_BYTES) == 0;
    assert Offered(whole, 0, COPY_BUFFER_BYTES) == 0 && Offered(whole, 1, COPY_BUFFER_BYTES) == CAPACITY;
    assert Offered(copy, 1, COPY_BUFFER_BYTES) == CAPACITY;
    assert EndSeen(whole, 0, size, COPY_BUFFER_BYTES) && EndSeen(whole, 0, 0, 1);
    assert size < 4 ==> EndSeen(whole, 0, size, 4);
  }

  lemma DigestIsValid(p: Primitives, content: seq<Byte>)
    requires 0 < |content| <= CAPACITY
    ensures Fits(Digest(p, content), |content|)
  {
    hide ValidDigest, Hex;
    ValidDigestIsLowerHex(Digest(p, content));
  }

  /** The target is found again as it was, under its own device number. */
  lemma TargetReopens(k: Kernel, after: Kernel, name: string, content: seq<Byte>)
    requires k.block == Example.TwoDisks() && IsDisk(name)
    ensures System.Opens(Calm(k, after, name, content).reopening, Identity(name))
  {
    hide Example.TwoDisks, IsTarget, DeviceNumber, IsDisk, AcceptedTarget;
    TargetOfDisk(k, name);
    DiskNumber(name);
  }

  lemma RemountWorks(k: Kernel, after: Kernel, name: string, content: seq<Byte>)
    requires BlockMountsAreReadOnly(after)
    ensures var env := Calm(k, after, name, content); System.RemountSucceeds(env.remount, env.polls)
  {
    hide BlockMountsAreReadOnly, MountsUnreadable;
    assert System.RemountSeenAt(Calm(k, after, name, content).polls, 0);
  }

  /** No flag is set, nothing is missing and nothing has changed. */
  ghost predicate IsCalm(m: Machine, request: System.Request, content: seq<Byte>, inspection: Inspection) {
    var env := m.env;
    && (forall call :: !Fault(env, call)) && !env.openImage && env.verify.None() && env.write.None()
    && m.file.regular && env.contentAtWrite == content && System.RemountSucceeds(env.remount, env.polls)
    && System.Opens(env.reopening, inspection.target) && request.confirmation == inspection.confirmationToken
  }

  lemma NothingIsBlamed(m: Machine, call: Call, request: System.Request, content: seq<Byte>, room: int,
    inspection: Inspection, host: HostObservation)
    requires IsCalm(m, request, content, inspection)
    requires System.Justified(request, m.env.observations, m.sum, inspection, host)
    requires ValidDigest(request.sha256) && Digest(m.primitives, content) == request.sha256
    requires !LeadsWithMagic(content) && 0 < |content| == request.expectedBytes <= room
    ensures !m.Blamed(call, request, content, room, Some(inspection))
  {
    hide System.Justified, System.Opens, System.RemountSucceeds, Digest, ValidDigest, LeadsWithMagic;
    hide VerifyFaults.None, WriteFaults.None;
  }

  lemma CalmMachine(m: Machine, request: System.Request, k: Kernel, after: Kernel, name: string, content: seq<Byte>,
    inspection: Inspection)
    requires m.env == Calm(k, after, name, content) && m.file.regular && 0 < |content| <= CAPACITY
    requires k.block == Example.TwoDisks() && IsDisk(name) && BlockMountsAreReadOnly(after)
    requires inspection.target == Identity(name) && request.confirmation == inspection.confirmationToken
    ensures IsCalm(m, request, content, inspection)
  {
    hide System.Opens, System.RemountSucceeds, BlockMountsAreReadOnly, Example.TwoDisks, IsDisk;
    hide VerifyFaults.None, VerifyFaults.Complete, WriteFaults.None, WriteFaults.Complete;
    OneReadSuffices(|content|);
    TargetReopens(k, after, name, content);
    RemountWorks(k, after, name, content);
  }

  lemma CalmListsSuffice(m: Machine, request: System.Request, k: Kernel, after: Kernel, name: string, content: seq<Byte>)
    requires m.env == Calm(k, after, name, content) && 0 < |content| <= CAPACITY && request.expectedBytes == |content|
    requires !LeadsWithMagic(content)
    ensures m.Complete(request, content)
  {
    hide VerifyFaults.None, VerifyFaults.Complete, WriteFaults.None, WriteFaults.Complete, LeadsWithMagic;
    OneReadSuffices(|content|);
  }

  /** Nothing in a calm environment can be blamed, so an accepted and confirmed run is favourable. */
  lemma CalmIsFavourable(m: Machine, request: System.Request, k: Kernel, after: Kernel, name: string, content: seq<Byte>,
    room: int, inspection: Inspection, host: HostObservation)
    requires m.env == Calm(k, after, name, content) && m.file.regular
    requires k.block == Example.TwoDisks() && IsDisk(name) && BlockMountsAreReadOnly(after)
    requires 0 < |content| <= CAPACITY && |content| <= room && !LeadsWithMagic(content)
    requires
      var digest := Digest(m.primitives, content);
      request == Ask(request.mode, name, request.imagePath, digest, |content|, inspection.confirmationToken)
    requires System.Justified(request, m.env.observations, m.sum, inspection, host) && inspection.target == Identity(name)
    ensures m.Favourable(request, content, room, inspection)
  {
    hide System.Justified, BlockMountsAreReadOnly, Example.TwoDisks, IsDisk, Digest, ValidDigest, LeadsWithMagic;
    hide Clean, Base, InDev, HasPrefix, IsAbs, IsCalm, Machine.Blamed, Machine.Complete;
    DigestIsValid(m.primitives, content);
    DevicePath(name);
    CalmMachine(m, request, k, after, name, content, inspection);
    CalmListsSuffice(m, request, k, after, name, content);
    forall call ensures !m.Blamed(call, request, content, room, Some(inspection)) {
      NothingIsBlamed(m, call, request, content, room, inspection, host);
    }
  }

  /** A disk of any content that is large enough ends as the image over its old bytes. */
  method Run(p: Primitives, sum: string -> Sum, request: System.Request, k: Kernel, after: Kernel, name: string,
    content: seq<Byte>, bytes: seq<Byte>, ghost inspection: Inspection, ghost host: HostObservation)
    returns (r: Outcome, written: seq<Byte>)
    requires k.block == Example.TwoDisks() && IsDisk(name) && BlockMountsAreReadOnly(after)
    requires 0 < |content| <= CAPACITY && |content| <= |bytes| && !LeadsWithMagic(content)
    requires
      request == Ask(request.mode, name, request.imagePath, Digest(p, content), |content|, inspection.confirmationToken)
    requires System.Justified(request, Seen(k, |content|), sum, inspection, host) && inspection.target == Identity(name)
    ensures r == Done(|content|) && written == content + bytes[|content|..]
  {
    hide Machine.Favourable, System.Justified, IsDisk, Example.TwoDisks, BlockMountsAreReadOnly, Digest, Order, Calm;
    hide Machine.WroteOnly, Machine.WroteAll, Machine.Explained, Machine.Complete, Machine.AllSucceeded, Cleared, FormatOf;
    hide Machine.StoppedAtFirstFailure, Machine.LastPending, LeadsWithMagic;
    var file := new File(content, true);
    var disk := new Disk(bytes);
    disk.open := false;
    var machine := new Machine(p, sum, Calm(k, after, name, content), file, disk);
    CalmSeesTheHost(k, after, name, content);
    ghost var before := disk.State();
    CalmIsFavourable(machine, request, k, after, name, content, |bytes|, inspection, host);
    ghost var found, seen;
    r, found, seen := machine.Execute(request);
    RawImageOnDisk(machine, before, disk.State(), request, content);
    written := disk.bytes;
  }

  lemma CalmSeesTheHost(k: Kernel, after: Kernel, name: string, content: seq<Byte>)
    ensures Calm(k, after, name, content).observations == Seen(k, |content|)
    ensures Calm(k, after, name, content).contentAtWrite == content
  {
  }

  lemma RawImageOnDisk(m: Machine, before: DiskState, after: DiskState, request: System.Request, content: seq<Byte>)
    requires before.offset == 0 && m.WroteAll(before, after, request, FormatOf(content))
    requires m.env.contentAtWrite == content && !LeadsWithMagic(content)
    ensures |content| == request.expectedBytes <= |before.bytes| && after.bytes == content + before.bytes[|content|..]
  {
    m.WholeImageOnDisk(before, after, request, content);
    assert content[..Min(4, |content|)] != ZSTD_MAGIC;
    hide Machine.WroteAll;
  }

  /** The operator types the token that inspection printed. */
  function Confirmed(mode: Mode, name: string, path: string, digest: string, size: int, sum: string -> Sum): System.Request
    requires Accepted(Identity(name), Image(path, digest, size))
  {
    Ask(mode, name, path, digest, size, ConfirmationToken(Identity(name), Image(path, digest, size), sum).value)
  }

  lemma TokenIsTheOneAsked(request: System.Request, k: Kernel, name: string, size: int, sum: string -> Sum, r: Inspection,
    host: HostObservation)
    requires System.Justified(request, Seen(k, size), sum, r, host) && r.target == Identity(name)
    requires request.expectedBytes == size
    ensures
      ConfirmationToken(Identity(name), Image(request.imagePath, request.sha256, size), sum) == Ok(r.confirmationToken)
  {
    hide System.Observed, IsTarget, Policy.AllHold, ConfirmationToken;
  }

  /** Rescue: the second disk ends with the image over its old bytes, whatever the image and the bytes are. */
  method RescueRunSucceeds(p: Primitives, sum: string -> Sum, content: seq<Byte>, bytes: seq<Byte>)
    returns (r: Outcome, written: seq<Byte>)
    requires 0 < |content| <= CAPACITY && |content| <= |bytes| && !LeadsWithMagic(content)
    ensures r == Done(|content|) && written == content + bytes[|content|..]
  {
    hide System.Justified, ConfirmationToken, Digest, Fits, Accepted, BlockMountsAreReadOnly, Example.TwoDisks, Host;
    hide LiveTable, RootMount, LeadsWithMagic, IsRootDisk, FirstName, SecondName;
    var name, digest, size := SecondName(), Digest(p, content), |content|;
    DigestIsValid(p, content);
    FittingIsAccepted(name, "/image", digest, size);
    var request := Confirmed(Rescue, name, "/image", digest, size, sum);
    var k, after := Host([RootMount("rw")]), Host(LiveTable("ro"));
    HostHasTwoDisks([RootMount("rw")]);
    ReadOnlyHost();
    ghost var inspection, host := AcceptanceIsPossible(digest, size, request.confirmation, sum);
    TokenIsTheOneAsked(request, k, name, size, sum, inspection, host);
    r, written := Run(p, sum, request, k, after, name, content, bytes, inspection, host);
  }

  /** Live: so does the first disk, below the root filesystem, once that is read-only. */
  method LiveRunSucceeds(p: Primitives, sum: string -> Sum, content: seq<Byte>, bytes: seq<Byte>)
    returns (r: Outcome, written: seq<Byte>)
    requires 0 < |content| <= CAPACITY && |content| <= |bytes| && !LeadsWithMagic(content)
    ensures r == Done(|content|) && written == content + bytes[|content|..]
  {
    hide System.Justified, ConfirmationToken, Digest, Fits, Accepted, BlockMountsAreReadOnly, Example.TwoDisks, Host;
    hide LiveTable, LeadsWithMagic, IsRootDisk, FirstName, SecondName;
    var name, digest, size := FirstName(), Digest(p, content), |content|;
    DigestIsValid(p, content);
    FittingIsAccepted(name, "/shm/image", digest, size);
    var request := Confirmed(Live, name, "/shm/image", digest, size, sum);
    var k, after := Host(LiveTable("rw")), Host(LiveTable("ro"));
    HostHasTwoDisks(LiveTable("rw"));
    ReadOnlyHost();
    ghost var inspection, host := LiveAcceptanceIsPossible(digest, size, request.confirmation, sum);
    TokenIsTheOneAsked(request, k, name, size, sum, inspection, host);
    r, written := Run(p, sum, request, k, after, name, content, bytes, inspection, host);
  }

  /** Before the first byte the live run has passed every gate, its own remount included. */
  lemma LiveRunIsCleared(digest: string, size: int, content: seq<Byte>, sum: string -> Sum)
    returns (request: System.Request, inspection: Inspection, host: HostObservation)
    requires Fits(digest, size) && |content| == size
    ensures request.mode == Live && inspection.target == Identity(FirstName())
    ensures Cleared(
      request, Calm(Host(LiveTable("rw")), Host(LiveTable("ro")), FirstName(), content), sum, inspection, host)
  {
    hide System.Justified, ConfirmationToken, Fits, Accepted, BlockMountsAreReadOnly, Example.TwoDisks, Host;
    hide LiveTable, IsRootDisk, FirstName, SecondName, IsTarget, DeviceNumber, System.RemountSucceeds;
    var name, k, after := FirstName(), Host(LiveTable("rw")), Host(LiveTable("ro"));
    FittingIsAccepted(name, "/shm/image", digest, size);
    request := Confirmed(Live, name, "/shm/image", digest, size, sum);
    HostHasTwoDisks(LiveTable("rw"));
    ReadOnlyHost();
    inspection, host := LiveAcceptanceIsPossible(digest, size, request.confirmation, sum);
    TokenIsTheOneAsked(request, k, name, size, sum, inspection, host);
    TargetReopens(k, after, name, content);
    RemountWorks(k, after, name, content);
  }
}
