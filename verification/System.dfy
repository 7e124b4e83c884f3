/**
 The privileged boundary: gathering one inspection from kernel state that may change between
 any two observations, and reopening the target under a second observation. The theorems
 say what acceptance means for the devices themselves.
 */
module System {
  import opened Basics
  import opened Text
  import opened Lexicographic
  import opened Paths
  import opened Procfs
  import opened Sysfs
  import opened Model
  import opened Observer
  import opened RootChains
  import opened Confirmation
  import opened Policy
  import opened Streams

  datatype Request = Request(
    mode: Mode,
    targetPath: string,
    imagePath: string,
    sha256: string,
    expectedBytes: int,
    confirmation: string,
    reboot: bool)

  /** The kernel as each observer call finds it, and the two facts that are not kernel text. */
  datatype Observations = Observations(
    target: Kernel, mounted: Kernel, swap: Kernel, source: Kernel, live: Kernel,
    euid: int, imageSize: Option<int>)

  // ----- inspection

  ghost predicate MountedAre(k: Kernel, devices: map<string, bool>) {
    k.mountinfo.Some?
    && (forall i :: 0 <= i < |k.mountinfo.value| ==> MountReadable(k, k.mountinfo.value[i]))
    && forall n :: n in Active(devices) <==> exists i :: 0 <= i < |k.mountinfo.value| && MountUses(k, k.mountinfo.value[i], n)
  }

  ghost predicate SwapsAre(k: Kernel, devices: map<string, bool>) {
    k.swaps.Some?
    && (forall i :: 1 <= i < |k.swaps.value| ==> SwapReadable(k, k.swaps.value[i]))
    && forall n :: n in Active(devices) <==> exists i :: 1 <= i < |k.swaps.value| && SwapUses(k, k.swaps.value[i], n)
  }

  ghost predicate RootDiskIs(k: Kernel, path: string) {
    exists name, disk :: IsRootDisk(k, name, disk) && path == InDev(disk)
  }

  /** `host` is what the observer calls report. */
  ghost predicate Observed(request: Request, o: Observations, host: HostObservation) {
    && host.euid == o.euid
    && MountedAre(o.mounted, host.mountedDevices)
    && SwapsAre(o.swap, host.swapDevices)
    && IsSource(o.source, request.imagePath, SourceInfo(host.sourceFilesystem, host.sourceBackingDevices))
    && if request.mode == Live then
         && RootDiskIs(o.live, host.rootDisk)
         && o.live.memoryAvailable == Some(host.memoryAvailableBytes)
         && o.live.sysRqTrigger == Some(host.sysRqTriggerAvailable)
       else host.rootDisk == "" && host.memoryAvailableBytes == 0 && !host.sysRqTriggerAvailable
  }

  /** The observations leave no choice: two hosts they describe have the same devices in use. */
  lemma ObservedIsDetermined(request: Request, o: Observations, a: HostObservation, b: HostObservation)
    requires Observed(request, o, a) && Observed(request, o, b)
    ensures SeesMore(a, b)
  {
    assert Active(a.mountedDevices) == Active(b.mountedDevices);
    assert Active(a.swapDevices) == Active(b.swapDevices);
    SourceIsDetermined(o.source, request.imagePath, SourceInfo(a.sourceFilesystem, a.sourceBackingDevices),
                       SourceInfo(b.sourceFilesystem, b.sourceBackingDevices));
    if request.mode == Live {
      RootDiskIsDetermined(o.live, a.rootDisk, b.rootDisk);
    }
    hide MountedAre, SwapsAre, IsSource, RootDiskIs, Active;
  }

  lemma RootDiskIsDetermined(k: Kernel, a: string, b: string)
    requires RootDiskIs(k, a) && RootDiskIs(k, b)
    ensures a == b
  {
    hide IsRootMount, Resolvable, Reaches, IsPhysical, InDev;
    var name, disk :| IsRootDisk(k, name, disk) && a == InDev(disk);
    var name', disk' :| IsRootDisk(k, name', disk') && b == InDev(disk');
    RootMountIsUnique(k, name, name');
  }

  /** The inspection follows from the observations: its target is the observed one and every gate holds. */
  ghost predicate Justified(request: Request, o: Observations, sum: string -> Sum, r: Inspection, host: HostObservation) {
    && Observed(request, o, host)
    && IsTarget(o.target, request.targetPath, r.target)
    && o.imageSize.Some?
    && r.image == ImageIdentity(request.imagePath, request.sha256, o.imageSize.value, request.expectedBytes)
    && r.mode == request.mode
    && AllHold(Gates(request.mode, r.target, r.image, host))
    && ConfirmationToken(r.target, r.image, sum) == Ok(r.confirmationToken)
  }

  lemma ActiveIsKeys(devices: map<string, bool>)
    requires AllTrue(devices)
    ensures Active(devices) == devices.Keys
  {
  }

  method ObserveMounts(k: Kernel) returns (r: Option<map<string, bool>>)
    ensures r.Some? ==> MountedAre(k, r.value)
    ensures r.None? ==> forall devices :: !MountedAre(k, devices)
  {
    hide MountUses, MountReadable, Active;
    r := MountedDevices(k);
    if r.Some? {
      ActiveIsKeys(r.value);
    }
  }

  method ObserveSwaps(k: Kernel) returns (r: Option<map<string, bool>>)
    ensures r.Some? ==> SwapsAre(k, r.value)
    ensures r.None? ==> forall devices :: !SwapsAre(k, devices)
  {
    hide SwapUses, SwapReadable, Active;
    r := SwapDevices(k);
    if r.Some? {
      ActiveIsKeys(r.value);
    }
  }

  /** Gathers every observation, then applies the policy: accepted exactly when justified. */
  method Inspect(request: Request, o: Observations, sum: string -> Sum)
    returns (r: Option<Inspection>, ghost host: HostObservation)
    ensures r.Some? ==> Justified(request, o, sum, r.value, host)
    ensures r.None? ==> forall i, h :: !Justified(request, o, sum, i, h)
  {
    hide Gates, AllHold, ConfirmationToken, IsTarget, IsSource, MountedAre, SwapsAre, RootDiskIs;
    host := HostObservation(0, "", map[], map[], "", [], 0, false);
    r := None;
    var target := Target(o.target, request.targetPath);
    if target.None? {
      return;
    }
    var mounted := ObserveMounts(o.mounted);
    if mounted.None? {
      return;
    }
    var swaps := ObserveSwaps(o.swap);
    if swaps.None? {
      return;
    }
    var source := Source(o.source, request.imagePath);
    if source.None? || o.imageSize.None? {
      return;
    }
    var observed := HostObservation(
      o.euid, "", mounted.value, swaps.value, source.value.filesystem, source.value.backing, 0, false);
    if request.mode == Live {
      var live := ObserveLive(o.live, observed);
      if live.None? {
        return;
      }
      observed := live.value;
    }
    host := observed;
    assert SourceInfo(host.sourceFilesystem, host.sourceBackingDevices) == source.value;
    assert Observed(request, o, host);
    var image := ImageIdentity(request.imagePath, request.sha256, o.imageSize.value, request.expectedBytes);
    var decision := Policy.Inspect(request.mode, target.value, image, observed, sum);
    if decision.Ok? {
      r := Some(decision.value);
    } else {
      RefusalIsFinal(request, o, sum, target.value, image, host);
    }
  }

  /** If the gates refuse one host the observations describe, they refuse every one. */
  lemma RefusalIsFinal(
    request: Request, o: Observations, sum: string -> Sum, t: TargetIdentity, image: ImageIdentity, host: HostObservation)
    requires Observed(request, o, host) && IsTarget(o.target, request.targetPath, t) && o.imageSize.Some?
    requires image == ImageIdentity(request.imagePath, request.sha256, o.imageSize.value, request.expectedBytes)
    requires !AllHold(Gates(request.mode, t, image, host))
    ensures forall i, h :: !Justified(request, o, sum, i, h)
  {
    hide Gates, AllHold, ConfirmationToken, IsTarget, Observed, SeesMore;
    TargetIsUnique(o.target, request.targetPath);
    forall i, h | Justified(request, o, sum, i, h) ensures false {
      ObservedIsDetermined(request, o, host, h);
      InspectionIsMonotone(request.mode, t, t, image, host, h);
    }
  }

  /** Adds the root disk, the memory estimate and the SysRq state to the observation. */
  method ObserveLive(k: Kernel, host: HostObservation) returns (r: Option<HostObservation>)
    ensures r.Some? ==>
      && RootDiskIs(k, r.value.rootDisk)
      && k.memoryAvailable == Some(r.value.memoryAvailableBytes)
      && k.sysRqTrigger == Some(r.value.sysRqTriggerAvailable)
      && r.value == host.(rootDisk := r.value.rootDisk, memoryAvailableBytes := r.value.memoryAvailableBytes,
                          sysRqTriggerAvailable := r.value.sysRqTriggerAvailable)
    ensures r.None? ==> k.memoryAvailable.None? || k.sysRqTrigger.None? || forall path :: !RootDiskIs(k, path)
  {
    hide IsRootDisk, InDev;
    var disk := RootDisk(k);
    if disk.None? || k.memoryAvailable.None? || k.sysRqTrigger.None? {
      return None;
    }
    r := Some(host.(rootDisk := disk.value, memoryAvailableBytes := k.memoryAvailable.value,
                    sysRqTriggerAvailable := k.sysRqTrigger.value));
  }

  // ----- what acceptance means

  /** Device `n` belongs to the target: the walk from the target reaches it. */
  ghost predicate OfTarget(o: Observations, t: TargetIdentity, n: string) {
    n != "" && Reaches(o.target.block, t.kName, n)
  }

  lemma TargetDevicesAreNamed(o: Observations, path: string, t: TargetIdentity, n: string)
    requires IsTarget(o.target, path, t) && OfTarget(o, t, n)
    ensures Base(n) in TargetNames(t)
  {
    hide Reaches, Resolvable, Base, Clean, BlockPath;
    assert n in Elements(t.descendants);
    assert Base(n) in BaseNames(t.descendants);
  }

  /** No device in `used` belongs to the target. */
  lemma NotOfTarget(o: Observations, path: string, t: TargetIdentity, used: set<string>)
    requires IsTarget(o.target, path, t) && !Meets(used, TargetNames(t))
    ensures forall n :: n in used ==> !OfTarget(o, t, n)
  {
    hide IsTarget, OfTarget, TargetNames, Base;
    forall n | n in used ensures !OfTarget(o, t, n) {
      if OfTarget(o, t, n) {
        TargetDevicesAreNamed(o, path, t, n);
      }
    }
  }

  lemma CommonGatesHold(request: Request, o: Observations, sum: string -> Sum, r: Inspection, host: HostObservation)
    requires Justified(request, o, sum, r, host)
    ensures r.target.sizeBytes >= request.expectedBytes > 0 && !r.target.isPartition && o.euid == 0
    ensures request.mode == Rescue || request.mode == Live
    ensures !Meets(Elements(host.sourceBackingDevices), TargetNames(r.target))
  {
    hide IsTarget, ConfirmationToken, Meets, TargetNames, AcceptedTarget, ValidDigest, ModeGates;
    hide MountedAre, SwapsAre, RootDiskIs, IsSource;
    var gates := Gates(request.mode, r.target, r.image, host);
    assert gates[0].holds && gates[1].holds && gates[2].holds && gates[3].holds && gates[5].holds && gates[7].holds;
  }

  lemma ModeGatesHold(request: Request, o: Observations, sum: string -> Sum, r: Inspection, host: HostObservation)
    requires Justified(request, o, sum, r, host)
    ensures request.mode == Rescue ==> !Meets(Active(host.mountedDevices), TargetNames(r.target))
    ensures request.mode == Rescue ==> !Meets(Active(host.swapDevices), TargetNames(r.target))
    ensures request.mode == Live ==> Clean(host.rootDisk) == r.target.canonicalPath && host.sourceFilesystem == "tmpfs"
  {
    hide Observed, IsTarget, ConfirmationToken, Meets, TargetNames, AcceptedTarget, ValidDigest, CommonGates, Clean;
    var common, later := CommonGates(request.mode, r.target, r.image, host), ModeGates(request.mode, r.target, host);
    var gates := Gates(request.mode, r.target, r.image, host);
    assert gates[|common|] == later[0] && gates[|common| + 1] == later[1];
  }

  /** In either mode, nothing the image source rests on belongs to the target. */
  lemma SourceIsolation(request: Request, o: Observations, sum: string -> Sum, r: Inspection, host: HostObservation)
    requires Justified(request, o, sum, r, host)
    ensures forall n :: SourceUses(o.source, request.imagePath, n) ==> !OfTarget(o, r.target, n)
  {
    CommonGatesHold(request, o, sum, r, host);
    hide Gates, AllHold, ConfirmationToken, OfTarget, IsTarget, SourceUses, TargetNames, Meets;
    NotOfTarget(o, request.targetPath, r.target, Elements(host.sourceBackingDevices));
    forall n | SourceUses(o.source, request.imagePath, n) ensures !OfTarget(o, r.target, n) {
      assert n in host.sourceBackingDevices;
    }
  }

  /**
   Rescue acceptance isolates the target: no device below any mount whose number resolves, below
   any swap partition or swap file, or below the image source belongs to the target, whatever
   chain of slaves and partition parents leads there.
   */
  lemma RescueIsolation(request: Request, o: Observations, sum: string -> Sum, r: Inspection, host: HostObservation)
    requires Justified(request, o, sum, r, host) && request.mode == Rescue
    ensures o.mounted.mountinfo.Some? && o.swap.swaps.Some?
    ensures forall i, n :: 0 <= i < |o.mounted.mountinfo.value| && MountUses(o.mounted, o.mounted.mountinfo.value[i], n) ==>
      !OfTarget(o, r.target, n)
    ensures forall i, n :: 1 <= i < |o.swap.swaps.value| && SwapUses(o.swap, o.swap.swaps.value[i], n) ==>
      !OfTarget(o, r.target, n)
    ensures forall n :: SourceUses(o.source, request.imagePath, n) ==> !OfTarget(o, r.target, n)
  {
    ModeGatesHold(request, o, sum, r, host);
    SourceIsolation(request, o, sum, r, host);
    hide Gates, AllHold, ConfirmationToken, OfTarget, IsTarget, SourceUses, MountUses, SwapUses, TargetNames, Meets;
    hide IsSource;
    NotOfTarget(o, request.targetPath, r.target, Active(host.mountedDevices));
    NotOfTarget(o, request.targetPath, r.target, Active(host.swapDevices));
  }

  lemma TargetHasName(k: Kernel, path: string, t: TargetIdentity)
    requires IsTarget(k, path, t)
    ensures t.kName != ""
  {
    hide IsRelated, BlockPath;
  }

  /** In particular no mounted device is the target or part of it, and none reaches it. */
  lemma NoMountReachesTarget(
    request: Request, o: Observations, sum: string -> Sum, r: Inspection, host: HostObservation, i: nat, name: string)
    requires Justified(request, o, sum, r, host) && request.mode == Rescue
    requires i < |o.mounted.mountinfo.value| && MountedOn(o.mounted, o.mounted.mountinfo.value[i], name)
    ensures !Reaches(o.mounted.block, name, r.target.kName)
    ensures name != "" ==> !Reaches(o.target.block, r.target.kName, name)
  {
    hide Observed, IsTarget, Gates, AllHold, ConfirmationToken, Reaches, SourceUses, SwapUses, MountUses, MountedOn;
    RescueIsolation(request, o, sum, r, host);
    ReachesItself(o.mounted.block, name);
    TargetHasName(o.target, request.targetPath, r.target);
    var line := o.mounted.mountinfo.value[i];
    MountUsesReached(o.mounted, line, name);
    assert MountUses(o.mounted, line, name) && !OfTarget(o, r.target, name);
    assert MountUses(o.mounted, line, r.target.kName) ==> !OfTarget(o, r.target, r.target.kName);
    assert OfTarget(o, r.target, r.target.kName) by { ReachesItself(o.target.block, r.target.kName); }
  }

  lemma MountUsesReached(k: Kernel, line: string, name: string)
    requires MountedOn(k, line, name)
    ensures forall n :: Reaches(k.block, name, n) ==> MountUses(k, line, n)
  {
    hide MountedOn, Reaches;
  }

  /** Live acceptance makes the resolved root disk the target. */
  lemma LiveTargetIsRootDisk(request: Request, o: Observations, sum: string -> Sum, r: Inspection, host: HostObservation)
    returns (name: string, disk: string)
    requires Justified(request, o, sum, r, host) && request.mode == Live
    ensures IsRootDisk(o.live, name, disk) && r.target.canonicalPath == InDev(disk)
    ensures IsName(disk) ==> r.target.kName == disk
  {
    ModeGatesHold(request, o, sum, r, host);
    hide Gates, AllHold, ConfirmationToken, Base, Clean, InDev, IsRootDisk, IsRelated, IsName;
    assert RootDiskIs(o.live, host.rootDisk);
    name, disk :| IsRootDisk(o.live, name, disk) && host.rootDisk == InDev(disk);
    InDevIsCanonical(disk);
    if IsName(disk) {
      BaseOfName(disk);
    }
    assert IsTarget(o.target, request.targetPath, r.target);
  }

  lemma InDevIsCanonical(name: string)
    ensures Clean(InDev(name)) == InDev(name)
  {
    if name == "" {
      assert "/dev" == Absolute(["dev"]);
      AbsoluteIsCanonical(["dev"]);
    } else {
      CleanIsCanonical("/dev/" + name);
    }
  }

  /** So on a well-formed snapshot every dependency chain of the root filesystem runs into the target. */
  lemma LiveRootChainsReachTarget(
    request: Request, o: Observations, sum: string -> Sum, r: Inspection, host: HostObservation, chain: seq<string>)
    returns (longer: seq<string>)
    requires Justified(request, o, sum, r, host) && request.mode == Live
    requires Acyclic(o.live.block) && IsChain(o.live.block, chain) && IsRootMount(o.live, chain[0])
    requires Accounted(o.live.block, chain[0])
    requires forall disk :: IsRootDisk(o.live, chain[0], disk) ==> IsName(disk)
    ensures IsChain(o.live.block, longer) && chain <= longer && longer[|longer| - 1] == r.target.kName
  {
    hide Justified, Acyclic, Dependencies, Accounted, IsOnlyDisk, IsName, IsRootMount;
    var name, disk := LiveTargetIsRootDisk(request, o, sum, r, host);
    RootMountIsUnique(o.live, name, chain[0]);
    longer := EveryChainReachesDisk(o.live.block, chain, disk);
  }

  lemma RootMountIsUnique(k: Kernel, a: string, b: string)
    requires IsRootMount(k, a) && IsRootMount(k, b)
    ensures a == b
  {
    hide ParseMountRecord, NameByDeviceNumber, IsRootLine;
    var i :| 0 <= i < |k.mountinfo.value| && IsRootLine(k.mountinfo.value[i]) && MountedOn(k, k.mountinfo.value[i], a)
             && forall j :: 0 <= j < i ==> !IsRootLine(k.mountinfo.value[j]);
    FirstRootLineIsTheRootMount(k, i);
    assert MountedOn(k, k.mountinfo.value[i], b);
  }

  // ----- consent

  /** The complete token is compared. */
  predicate Confirms(provided: string, expected: string) {
    |provided| == |expected| && provided == expected
  }

  // ----- remounting

  const REMOUNT_POLL_ATTEMPTS := 600

  /** Poll `i` finds every block-backed mount read-only, and no earlier poll ends in a read error. */
  ghost predicate RemountSeenAt(polls: nat -> Kernel, i: nat) {
    BlockMountsAreReadOnly(polls(i)) && forall j: nat :: j < i ==> !MountsUnreadable(polls(j))
  }

  ghost predicate RemountSucceeds(controlFails: bool, polls: nat -> Kernel) {
    !controlFails && exists i: nat :: i < 600 && RemountSeenAt(polls, i)
  }

  /** Succeeds exactly when the request works and one of the 600 polls proves it before a read error. */
  method RemountReadOnly(controlFails: bool, polls: nat -> Kernel) returns (ok: bool)
    ensures ok <==> RemountSucceeds(controlFails, polls)
  {
    hide BlockMountsAreReadOnly, MountsUnreadable;
    if controlFails {
      return false;
    }
    for i := 0 to REMOUNT_POLL_ATTEMPTS
      invariant forall j: nat :: j < i ==> !BlockMountsAreReadOnly(polls(j)) && !MountsUnreadable(polls(j))
    {
      var readOnly := BlockMountsReadOnly(polls(i));
      if readOnly.None? {
        return false;
      }
      if readOnly.value {
        assert RemountSeenAt(polls, i);
        return true;
      }
    }
    ok := false;
  }

  // ----- reopening the target

  /** What opening the target meets: three system calls, two observations, and the descriptor itself. */
  datatype Reopening = Reopening(
    openFails: bool, statFails: bool, isBlock: bool,
    kernel: Kernel, numbers: Kernel, restatFails: bool, device: (nat, nat))

  predicate SameTarget(current: TargetIdentity, expected: TargetIdentity) {
    && current.canonicalPath == expected.canonicalPath
    && current.serial == expected.serial
    && current.wwn == expected.wwn
    && current.sizeBytes == expected.sizeBytes
    && current.kName == expected.kName
    && current.isPartition == expected.isPartition
    && current.descendants == expected.descendants
  }

  /** The second observation is the inspected identity, and the descriptor is that device. */
  ghost predicate Undrifted(open: Reopening, expected: TargetIdentity) {
    && IsTarget(open.kernel, expected.canonicalPath, expected)
    && DeviceNumber(open.numbers.block, expected.kName) == Some(open.device)
  }

  ghost predicate Opens(open: Reopening, expected: TargetIdentity) {
    !open.openFails && !open.statFails && open.isBlock && !open.restatFails && Undrifted(open, expected)
  }

  /** The disk is left open exactly when the calls work and nothing has drifted; a rejected descriptor is closed again. */
  method OpenTarget(open: Reopening, expected: TargetIdentity, disk: Disk) returns (ok: bool)
    requires !disk.open
    modifies disk`open
    ensures ok <==> Opens(open, expected)
    ensures disk.open <==> ok
  {
    hide IsTarget, DeviceNumber;
    if open.openFails {
      return false;
    }
    disk.open := true;
    if open.statFails || !open.isBlock {
      disk.open := false;
      return false;
    }
    ok := ValidateOpenedTarget(open, expected);
    if !ok {
      disk.open := false;
    }
  }

  /** The checks made on the open descriptor. */
  method ValidateOpenedTarget(open: Reopening, expected: TargetIdentity) returns (ok: bool)
    ensures ok <==> !open.restatFails && Undrifted(open, expected)
  {
    hide IsTarget, DeviceNumber;
    var current := Target(open.kernel, expected.canonicalPath);
    if current.None? {
      return false;
    }
    if !SameTarget(current.value, expected) {
      TargetIsUnique(open.kernel, expected.canonicalPath);
      return false;
    }
    assert current.value == expected;
    var number := DeviceNumber(open.numbers.block, expected.kName);
    ok := number.Some? && !open.restatFails && number.value == open.device;
  }

  /** One request and one set of observations justify at most one inspection. */
  lemma JustifiedIsUnique(request: Request, o: Observations, sum: string -> Sum)
    ensures forall i, h, i', h' ::
      Justified(request, o, sum, i, h) && Justified(request, o, sum, i', h') ==> i == i'
  {
    hide Observed, IsTarget, Gates, AllHold, ConfirmationToken;
    TargetIsUnique(o.target, request.targetPath);
  }

  lemma TargetIsUnique(k: Kernel, path: string)
    ensures forall t, u :: IsTarget(k, path, t) && IsTarget(k, path, u) ==> t == u
  {
    forall t, u | IsTarget(k, path, t) && IsTarget(k, path, u) ensures t == u {
      hide BlockPath, Sectors, Clean, Base, InDev, IsRelated;
      RelatedIsCanonical(k.block, t.kName, Some(t.descendants), k.block, u.kName, Some(u.descendants));
    }
  }

  /** Comparing descendants as sequences detects exactly a change of the related set. */
  lemma DriftIsSetDifference(before: Kernel, after: Kernel, path: string, path': string, t: TargetIdentity, u: TargetIdentity)
    requires IsTarget(before, path, t) && IsTarget(after, path', u)
    ensures SameTarget(u, t) <==>
      && u == t.(descendants := u.descendants)
      && Closure(after.block, u.kName) == Closure(before.block, t.kName)
  {
    hide BlockPath, Sectors, Clean, Base, InDev, IsRelated;
    RelatedIsCanonical(after.block, u.kName, Some(u.descendants), before.block, t.kName, Some(t.descendants));
  }
}
