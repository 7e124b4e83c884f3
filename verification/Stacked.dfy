/**
 A host that rescue mode refuses: the root filesystem is on a device-mapper volume over a
 partition of the disk that is to be overwritten. No mount names the disk or the partition; the
 refusal rests on what the directories of the snapshot list.
 */
module Stacked {
  import opened Basics
  import opened Text
  import opened Lexicographic
  import opened Paths
  import opened Procfs
  import opened Sysfs
  import opened Model
  import opened Naming
  import opened Observer
  import opened Confirmation
  import opened Policy
  import opened System
  import opened Example

  function Volume(): string { "dm-0" }

  function DiskName(): string { "sda" }

  function PartitionName(): string { "sda2" }

  function VolumeNode(): Node {
    Node(None, Some(["dev", "slaves"]),
      map["dev" := TextFile("253:0"), "slaves" := Node(None, Some([PartitionName()]), map[])])
  }

  function PartitionNode(): Node {
    Node(None, Some(["dev", "partition"]), map["dev" := TextFile("8:2"), "partition" := TextFile("2")])
  }

  function DiskNode(): Node {
    Node(None, Some(["dev", PartitionName(), "size"]),
      map["dev" := TextFile("8:0"), PartitionName() := PartitionNode(), "size" := TextFile(Dec(8))])
  }

  function Block(): Node {
    Node(None, Some([Volume(), DiskName(), PartitionName()]),
      map[Volume() := VolumeNode(), DiskName() := DiskNode(), PartitionName() := PartitionNode()])
  }

  // ----- relations

  lemma Resolves(name: string)
    requires name in Block().sub
    ensures BlockPath(Block(), name) == Some(Block().sub[name])
  {
    hide Dec;
  }

  /** The volume lists the partition, the partition belongs to the disk, the disk lists the partition. */
  lemma Relations(name: string, n: string)
    requires name in Block().sub
    ensures ListsSlave(Block(), name, n) <==> name == Volume() && n == PartitionName()
    ensures ListsPartition(Block(), name, n) <==> name == DiskName() && n == PartitionName()
    ensures IsParent(Block(), name, n) <==> name == PartitionName() && n == DiskName()
  {
    hide Dec, Less;
    Resolves(name);
    assert Marks(Block(), n, name) <==> name == PartitionName() && n == DiskName();
  }

  lemma Steps(start: string, name: string)
    requires name in Block().sub
    ensures Next(Block(), start, name) ==
      if name == Volume() then {PartitionName()}
      else if name == PartitionName() then {DiskName()}
      else if name == start then {PartitionName()} else {}
    ensures !Broken(Block(), start, name)
  {
    hide Next, ListsSlave, ListsPartition, IsParent, Dec;
    forall n ensures n in Next(Block(), start, name) <==>
      || (name == Volume() && n == PartitionName()) || (name == PartitionName() && n == DiskName())
      || (name == start == DiskName() && n == PartitionName())
    {
      Relations(name, n);
      RelationsAreListed(Block(), start, name, n);
    }
    Resolves(name);
  }

  lemma NamesOfBlock(name: string)
    ensures name in Block().sub <==> name == Volume() || name == DiskName() || name == PartitionName()
    ensures Volume() != DiskName() && Volume() != PartitionName() && DiskName() != PartitionName()
  {
  }

  /** The volume reaches the disk through the partition; the disk reaches its partition. */
  lemma Closures(start: string)
    requires start == Volume() || start == DiskName()
    ensures Closure(Block(), start) ==
      {DiskName(), PartitionName()} + if start == Volume() then {Volume()} else {}
    ensures Resolvable(Block(), start)
  {
    hide Block, Volume, DiskName, PartitionName, Next, Broken, Reaches;
    var root, all := Block(), {DiskName(), PartitionName()} + if start == Volume() then {Volume()} else {};
    NamesOfBlock(start);
    forall n | n in all ensures n in root.sub && Next(root, start, n) <= all && !Broken(root, start, n) {
      NamesOfBlock(n);
      Steps(start, n);
    }
    ReachableIsLeast(root, start, all);
    ReachesItself(root, start);
    NamesOfBlock(PartitionName());
    Steps(start, start);
    ReachesNext(root, start, start, PartitionName());
    Steps(start, PartitionName());
    ReachesNext(root, start, PartitionName(), DiskName());
  }

  // ----- mounts

  lemma Numbers(device: string)
    requires device == "253:0" || device == ANONYMOUS
    ensures NameByDeviceNumber(Block(), device) == if device == "253:0" then Found(Volume()) else Absent
  {
    hide NameByDeviceNumber, Dec, Less;
    var root := Block();
    assert HasNumber(root, Volume(), Volume(), "253:0");
    forall name ensures !HasNumber(root, DiskName(), name, device) && !HasNumber(root, PartitionName(), name, device) {
    }
    forall name ensures HasNumber(root, Volume(), name, device) ==> name == Volume() && device == "253:0" {
    }
    assert IsReadable(root, Volume()) && IsReadable(root, DiskName()) && IsReadable(root, PartitionName());
    assert Volume() in root.listing.value;
    hide HasNumber, IsReadable;
    NameByDeviceNumberIsCorrect(root, device);
  }

  function VolumeMount(): string {
    Mount("253:0", "/", "rw", "ext4", "/dev/dm-0")
  }

  function Table(): seq<string> {
    [VolumeMount(), MemoryMount()]
  }

  function StackedHost(): Kernel {
    Kernel(Block(), Some(Table()), Some([]), None, None)
  }

  lemma VolumeLiterals()
    ensures IsPlainWord("253:0") && IsPlainWord("/dev/dm-0")
  {
  }

  lemma TableParses()
    ensures |Table()| == 2 && AllParse(Table())
    ensures IsRecord(Table()[0], "253:0", "/", "ext4") && IsRecord(Table()[1], ANONYMOUS, "/shm", "tmpfs")
  {
    hide ParseMountRecord, Mount, MemoryMount, IsPlainWord;
    PlainLiterals();
    VolumeLiterals();
    MountParses("253:0", "/", "rw", "ext4", "/dev/dm-0");
    AnonymousMountsParse();
  }

  ghost function Used(): set<string> {
    {Volume(), DiskName(), PartitionName()}
  }

  /** The root mount rests on the whole stack, the tmpfs on nothing. */
  lemma MountOfVolume(k: Kernel, line: string)
    requires k.block == Block()
    requires ParseMountRecord(line).Some? && ParseMountRecord(line).value.device == "253:0"
    ensures RestsOn(k, line, Used())
  {
    hide ParseMountRecord, NameByDeviceNumber, MountUses, MountReadable, Closure, Resolvable, Block;
    hide Volume, DiskName, PartitionName;
    Numbers("253:0");
    Closures(Volume());
    UsesOfFoundMount(k, line, Volume());
    assert Closure(k.block, Volume()) == Used();
  }

  lemma MountOfMemory(k: Kernel, line: string)
    requires k.block == Block()
    requires ParseMountRecord(line).Some? && ParseMountRecord(line).value.device == ANONYMOUS
    ensures RestsOn(k, line, {})
  {
    hide ParseMountRecord, NameByDeviceNumber, MountUses, MountReadable, Block;
    Numbers(ANONYMOUS);
    UsesOfAbsentMount(k, line);
  }

  ghost function InUse(): map<string, bool> {
    map[Volume() := true, DiskName() := true, PartitionName() := true]
  }

  ghost function StackReport(): HostObservation {
    HostObservation(0, "", InUse(), map[], "tmpfs", [], 0, false)
  }

  lemma UsedIsActive()
    ensures Active(InUse()) == Used()
  {
    hide Volume, DiskName, PartitionName;
  }

  lemma HostOfStack()
    ensures
      var k := StackedHost();
      k.block == Block() && k.mountinfo == Some(Table()) && k.swaps == Some([])
  {
  }

  lemma DevicesOfStack(k: Kernel)
    requires k.block == Block() && k.mountinfo == Some(Table()) && k.swaps == Some([])
    ensures MountedAre(k, InUse()) && SwapsAre(k, map[])
    ensures IsSource(k, "/shm/image", SourceInfo("tmpfs", []))
  {
    hide Block, Table, RestsOn, ParseMountRecord, AllParse, MountedAre, SwapsAre, IsSource, IsSelected, Clean, HasPrefix;
    hide IsAbs, Active, InUse, Used;
    TableParses();
    UsedIsActive();
    MountOfVolume(k, Table()[0]);
    MountOfMemory(k, Table()[1]);
    assert Table() == [Table()[0]] + Table()[1..];
    MountedDevicesOf(k, Table()[0], Table()[1..], InUse());
    ImageInMemory();
    MemoryIsSelected(Table(), "/shm/image");
    assert Elements([]) == {};
    SourceOf(k, "/shm/image", 1, "tmpfs", []);
  }

  // ----- the target and the refusal

  function StackedTarget(): TargetIdentity {
    TargetIdentity("/dev/sda", "", "", 4096, DiskName(), false, [DiskName(), PartitionName()])
  }

  lemma DiskFilesOfStack(node: Node)
    requires node == Block().sub[DiskName()]
    ensures Sectors(node) == Some(8) && !node.IsPartition()
    ensures ReadOptional(node.ReadBelow("device", "serial"), node.Read("serial")) == ""
    ensures ReadOptional(node.ReadBelow("device", "wwid"), node.Read("wwid")) == ""
  {
    hide Dec, Sectors;
    SectorsRoundTrip(node, 8);
  }

  lemma PathOfDisk()
    ensures Clean("/dev/sda") == "/dev/sda" == InDev(DiskName()) && IsAbs("/dev/sda") && HasPrefix("/dev/sda", "/dev/")
    ensures Base("/dev/sda") == DiskName() == Base(DiskName()) && ValidLabel(DiskName())
    ensures DiskName() != "" && DiskName() != "." && DiskName() != "/"
  {
    hide Clean, Base, ValidLabel, DiskName, IsName, HasPrefix, InDev;
    DiskLiteral();
    BaseOfName(DiskName());
    InDevIsCanonical(DiskName());
  }

  lemma DiskLiteral()
    ensures IsName(DiskName()) && "/dev/sda" == "/dev/" + DiskName() && HasPrefix("/dev/sda", "/dev/")
    ensures DiskName() != "" && DiskName() != "." && DiskName() != "/" && ValidLabel(DiskName())
  {
  }

  lemma DescendantsAreSorted()
    ensures StrictlySorted([DiskName(), PartitionName()])
    ensures Elements([DiskName(), PartitionName()]) == {DiskName(), PartitionName()}
  {
    LessAtFirstDifference(DiskName(), PartitionName(), 3);
    hide Less;
  }

  lemma TargetOfStack(k: Kernel)
    requires k.block == Block()
    ensures IsTarget(k, "/dev/sda", StackedTarget()) && AcceptedTarget(StackedTarget())
  {
    hide Block, DiskName, PartitionName, Volume, Clean, Base, InDev, IsAbs, HasPrefix, ValidLabel, Closure, Resolvable;
    hide BlockPath, Sectors, ReadOptional, StrictlySorted;
    PathOfDisk();
    NamesOfBlock(DiskName());
    Resolves(DiskName());
    DiskFilesOfStack(Block().sub[DiskName()]);
    Closures(DiskName());
    DescendantsAreSorted();
  }

  lemma DiskIsInUse()
    ensures Meets(Active(InUse()), TargetNames(StackedTarget())) && !Meets({}, TargetNames(StackedTarget()))
  {
    hide Volume, DiskName, PartitionName, Base, Active, InUse;
    UsedIsActive();
    PathOfDisk();
    assert Base(DiskName()) in BaseNames([StackedTarget().kName, StackedTarget().canonicalPath]);
  }

  /** The gates are tried in order, and the first that fails is the one about mounts. */
  lemma StackFailsAtMounts(image: ImageIdentity)
    requires image.uncompressedBytes <= 4096 && Accepted(StackedTarget(), image)
    ensures IsFirstFailure(Gates(Rescue, StackedTarget(), image, StackReport()), TargetMounted)
    ensures !AllHold(Gates(Rescue, StackedTarget(), image, StackReport()))
  {
    hide Meets, TargetNames, Accepted, Active, InUse, CommonGates;
    DiskIsInUse();
    var t, host := StackedTarget(), StackReport();
    assert Elements(host.sourceBackingDevices) == {};
    CommonGatesFollow(Rescue, t, image, host);
    Fails(ModeGates(Rescue, t, host), 0);
    LaterFailure(CommonGates(Rescue, t, image, host), ModeGates(Rescue, t, host), TargetMounted);
  }

  /**
   The disk under the running root is refused with the gate about mounts, and no inspection of this
   host is ever justified, whatever the digest, the size and SHA-256.
   */
  lemma StackedRootIsRefused(digest: string, size: int, confirmation: string, sum: string -> Sum)
    requires Fits(digest, size)
    ensures
      var request := Ask(Rescue, DiskName(), "/shm/image", digest, size, confirmation);
      var o, image := Seen(StackedHost(), size), Image("/shm/image", digest, size);
      && Observed(request, o, StackReport()) && IsTarget(o.target, request.targetPath, StackedTarget())
      && IsFirstFailure(Gates(Rescue, StackedTarget(), image, StackReport()), TargetMounted)
      && forall i, h :: !Justified(request, o, sum, i, h)
  {
    hide StackedHost, Block, Table, DiskName, StackedTarget, MountedAre, SwapsAre, IsSource, IsTarget, AcceptedTarget;
    hide ValidDigest, Gates, AllHold, IsFirstFailure, Justified, InUse, Observed;
    var request, k := Ask(Rescue, DiskName(), "/shm/image", digest, size, confirmation), StackedHost();
    var image := Image("/shm/image", digest, size);
    HostOfStack();
    PathIsAsked();
    TargetOfStack(k);
    StackIsObserved(request, k, size);
    StackFailsAtMounts(image);
    RefusalIsFinal(request, Seen(k, size), sum, StackedTarget(), image, StackReport());
  }

  lemma StackIsObserved(request: Request, k: Kernel, size: int)
    requires request.mode == Rescue && request.imagePath == "/shm/image"
    requires k.block == Block() && k.mountinfo == Some(Table()) && k.swaps == Some([])
    ensures Observed(request, Seen(k, size), StackReport())
  {
    hide Block, Table, MountedAre, SwapsAre, IsSource, InUse;
    DevicesOfStack(k);
  }

  lemma PathIsAsked()
    ensures "/dev/" + DiskName() == "/dev/sda"
  {
  }
}
