/**
 Hosts that are accepted. Two whole disks carry three mount tables: rescue mode accepts the
 second disk beside a root filesystem on the first; it accepts it as well when the only mount
 has a device number that no block device holds; live mode accepts the first disk under an
 image in memory. They show that acceptance is not an empty condition, and what it lets pass.
 */
module Example {
  import opened Basics
  import opened Text
  import opened Lexicographic
  import opened Paths
  import opened Procfs
  import opened Sysfs
  import opened Model
  import opened Naming
  import opened Observer
  import opened Confirmation
  import opened Policy
  import opened System

  // ----- two disks

  function TextFile(text: string): Node {
    Node(Some(text), None, map[])
  }

  function Serial(): string { "S5GXNX0T123456" }

  function Wwid(): string { "eui.0025385a11b2c3d4" }

  function DeviceFiles(): Node {
    Node(None, Some(["serial", "wwid"]), map["serial" := TextFile(Serial()), "wwid" := TextFile(Wwid())])
  }

  function WholeDisk(device: string): Node {
    Node(None, Some(["dev", "device", "size"]),
      map["dev" := TextFile(device), "device" := DeviceFiles(), "size" := TextFile(Dec(8))])
  }

  const CAPACITY := 4096

  function FirstName(): string { "nvme0n1" }

  function SecondName(): string { "loop0" }

  predicate IsDisk(name: string) {
    name == FirstName() || name == SecondName()
  }

  function Number(name: string): (nat, nat) {
    if name == FirstName() then (259, 0) else (7, 0)
  }

  function NumberText(name: string): string {
    if name == FirstName() then "259:0" else "7:0"
  }

  function TwoDisks(): Node {
    Node(None, Some([FirstName(), SecondName()]),
      map[FirstName() := WholeDisk(NumberText(FirstName())), SecondName() := WholeDisk(NumberText(SecondName()))])
  }

  /** A device without slaves, children or parent is related to itself alone. */
  lemma LoneDevice(root: Node, name: string)
    requires root.listing.Some? && root.Has(name)
    requires !root.sub[name].Has("slaves") && root.sub[name].listing.Some?
    requires forall c :: root.sub[name].Has(c) ==> !root.sub[name].sub[c].IsPartition()
    requires forall p :: root.Has(p) ==> !root.sub[p].Has(name)
    ensures Closure(root, name) == {name} && Resolvable(root, name)
  {
    PartitionParentIsLeast(root, name);
    assert Next(root, name, name) == {} && !Broken(root, name, name) by {
      hide PartitionParent;
    }
    hide Next, Broken;
    ReachesItself(root, name);
    ReachableIsLeast(root, name, {name});
  }

  lemma DiskStandsAlone(name: string)
    requires IsDisk(name)
    ensures Closure(TwoDisks(), name) == {name} && Resolvable(TwoDisks(), name)
    ensures name in TwoDisks().sub && BlockPath(TwoDisks(), name) == Some(TwoDisks().sub[name])
  {
    hide Closure, Resolvable, Dec;
    LoneDevice(TwoDisks(), name);
  }

  lemma DiskFiles(name: string, node: Node)
    requires IsDisk(name) && TwoDisks().Has(name) && node == TwoDisks().sub[name]
    ensures Sectors(node) == Some(8) && !node.IsPartition() && node.Slaves() == Some([])
    ensures node.Read("dev") == Some(NumberText(name))
    ensures ReadOptional(node.ReadBelow("device", "serial"), node.Read("serial")) == Serial()
    ensures ReadOptional(node.ReadBelow("device", "wwid"), node.Read("wwid")) == Wwid()
  {
    hide Dec, Sectors;
    SectorsRoundTrip(node, 8);
  }

  lemma DiskNumber(name: string)
    requires IsDisk(name)
    ensures DeviceNumber(TwoDisks(), name) == Some(Number(name))
  {
    assert Dec(25) == Dec(2) + "5" && Dec(259) == Dec(25) + "9" && Dec(7) == "7" && Dec(0) == "0" && Dec(2) == "2";
    DeviceNumberRoundTrip(Number(name).0, Number(name).1);
    assert Dec(Number(name).0) + ":" + Dec(Number(name).1) == NumberText(name);
    hide TwoDisks, ParseDeviceNumber, BlockPath, Dec;
    DiskStandsAlone(name);
    DiskFiles(name, TwoDisks().sub[name]);
  }

  lemma DisksDiffer()
    ensures FirstName() != SecondName()
  {
  }

  lemma OneIsSorted(name: string)
    ensures StrictlySorted([name])
  {
  }

  lemma DiskNames(name: string)
    requires IsDisk(name)
    ensures IsName(name) && name != "" && name != "." && name != "/" && !HasPrefix(name, "dm-")
    ensures ValidLabel(name)
  {
    assert name[0] != "dm-"[0];
  }

  lemma NumbersResolve(device: string)
    ensures NameByDeviceNumber(TwoDisks(), device) ==
      if device == "259:0" then Found(FirstName()) else if device == "7:0" then Found(SecondName()) else Absent
  {
    hide NameByDeviceNumber, Dec, Less;
    var root := TwoDisks();
    NameByDeviceNumberIsCorrect(root, device);
    assert IsReadable(root, FirstName()) && IsReadable(root, SecondName());
    assert HasNumber(root, FirstName(), FirstName(), "259:0") && HasNumber(root, SecondName(), SecondName(), "7:0");
    assert FirstName() in root.listing.value && SecondName() in root.listing.value;
  }

  // ----- mount tables

  predicate IsPlainWord(s: string) {
    s != "" && s != "-" && forall i :: 0 <= i < |s| ==> '!' <= s[i] <= '~'
  }

  function SuperOptions(): seq<string> { ["rw", "errors=remount-ro"] }

  /** A mount with one option of its own; the options of its superblock only end in "ro". */
  function Mount(device: string, mountpoint: string, option: string, filesystem: string, source: string): string {
    MountLine("1", "0", device, "/", mountpoint, [option], [], filesystem, source, SuperOptions()).Print()
  }

  lemma SuperOptionsArePlain()
    ensures IsPlainWord(Join(SuperOptions(), ',')) && "ro" !in SuperOptions() && SuperOptions() != []
    ensures forall i :: 0 <= i < |SuperOptions()| ==> ',' !in SuperOptions()[i]
  {
    assert Join(["errors=remount-ro"], ',') == "errors=remount-ro";
    assert SuperOptions()[1..] == ["errors=remount-ro"];
    assert Join(SuperOptions(), ',') == "rw,errors=remount-ro";
  }

  lemma MountParses(device: string, mountpoint: string, option: string, filesystem: string, source: string)
    requires IsPlainWord(device) && IsPlainWord(mountpoint) && IsPlainWord(option) && ',' !in option
    requires IsPlainWord(filesystem) && IsPlainWord(source)
    ensures ParseMountRecord(Mount(device, mountpoint, option, filesystem, source)) ==
      Some(MountRecord(device, mountpoint, filesystem, option == "ro"))
  {
    var l := MountLine("1", "0", device, "/", mountpoint, [option], [], filesystem, source, SuperOptions());
    SuperOptionsArePlain();
    assert l.Printable() by {
      hide SuperOptions;
      var words := ["1", "0", device, "/", option, filesystem, source, Join(SuperOptions(), ',')];
      assert l.PlainHead() + [l.filesystem, l.source, Join(l.superOptions, ',')] == words;
      assert l.PlainHead() == words[..5];
      assert forall i :: 0 <= i < |words| ==> IsPlainWord(words[i]);
      hide IsPlainWord, Join;
      PlainWordsAreWords(words);
      MountpointHasNoSpace(mountpoint);
    }
    hide MountLine.Printable, MountLine.Print, ParseMountRecord;
    ParseUndoesPrint(l);
  }

  lemma PlainWordsAreWords(words: seq<string>)
    requires forall i :: 0 <= i < |words| ==> IsPlainWord(words[i])
    ensures AllWords(words) && "-" !in words
  {
  }

  lemma MountpointHasNoSpace(s: string)
    requires IsPlainWord(s)
    ensures s != "" && s != "-" && forall i :: 0 <= i < |s| ==> !IsSpace(s[i])
  {
  }

  const ANONYMOUS := "0:45"

  /** The mount is readable and rests on exactly these devices. */
  ghost predicate RestsOn(k: Kernel, line: string, devices: set<string>) {
    MountReadable(k, line) && forall n :: MountUses(k, line, n) <==> n in devices
  }

  lemma DiskMount(k: Kernel, line: string, name: string)
    requires k.block == TwoDisks() && IsDisk(name)
    requires ParseMountRecord(line).Some? && ParseMountRecord(line).value.device == NumberText(name)
    ensures MountedOn(k, line, name) && RestsOn(k, line, {name})
  {
    NumbersResolve(NumberText(name));
    hide ParseMountRecord, NameByDeviceNumber, MountUses, MountReadable, Closure, Resolvable, TwoDisks;
    DiskStandsAlone(name);
    UsesOfFoundMount(k, line, name);
  }

  /** A mount whose number no disk holds counts as readable and rests on nothing. */
  lemma AnonymousMount(k: Kernel, line: string)
    requires k.block == TwoDisks()
    requires ParseMountRecord(line).Some? && ParseMountRecord(line).value.device == ANONYMOUS
    ensures (forall name :: !MountedOn(k, line, name)) && !LookupFails(k, line) && RestsOn(k, line, {})
  {
    NumbersResolve(ANONYMOUS);
    hide ParseMountRecord, NameByDeviceNumber, MountUses, MountReadable, TwoDisks;
    UsesOfAbsentMount(k, line);
  }

  function RootMount(options: string): string {
    Mount(NumberText(FirstName()), "/", options, "ext4", "/dev/nvme0n1")
  }

  function AnonymousRoot(): string {
    Mount(ANONYMOUS, "/", "rw", "btrfs", "/dev/loop0")
  }

  function MemoryMount(): string {
    Mount(ANONYMOUS, "/shm", "rw", "tmpfs", "shm")
  }

  predicate IsRecord(line: string, device: string, mountpoint: string, filesystem: string) {
    ParseMountRecord(line).Some?
    && ParseMountRecord(line).value.device == device
    && ParseMountRecord(line).value.mountpoint == mountpoint
    && ParseMountRecord(line).value.filesystem == filesystem
  }

  lemma PlainLiterals()
    ensures IsPlainWord("/") && IsPlainWord("/shm") && IsPlainWord("rw") && IsPlainWord("ro")
    ensures IsPlainWord("ext4") && IsPlainWord("btrfs") && IsPlainWord("tmpfs") && IsPlainWord("shm")
    ensures IsPlainWord("/dev/nvme0n1") && IsPlainWord("/dev/loop0")
    ensures IsPlainWord(NumberText(FirstName())) && IsPlainWord(ANONYMOUS)
  {
  }

  lemma RootMountParses(options: string)
    requires options == "rw" || options == "ro"
    ensures IsRecord(RootMount(options), NumberText(FirstName()), "/", "ext4")
    ensures ParseMountRecord(RootMount(options)).value.readOnly <==> options == "ro"
  {
    hide ParseMountRecord, Mount, IsPlainWord, NumberText;
    PlainLiterals();
    MountParses(NumberText(FirstName()), "/", options, "ext4", "/dev/nvme0n1");
  }

  lemma AnonymousMountsParse()
    ensures IsRecord(AnonymousRoot(), ANONYMOUS, "/", "btrfs") && IsRecord(MemoryMount(), ANONYMOUS, "/shm", "tmpfs")
  {
    hide ParseMountRecord, Mount, IsPlainWord;
    PlainLiterals();
    MountParses(ANONYMOUS, "/", "rw", "btrfs", "/dev/loop0");
    MountParses(ANONYMOUS, "/shm", "rw", "tmpfs", "shm");
  }

  /** The two disks under a mount table, without swap, with enough memory and a working trigger. */
  function Host(lines: seq<string>): Kernel {
    Kernel(TwoDisks(), Some(lines), Some([]), Some(MINIMUM_LIVE_AVAILABLE_BYTES), Some(true))
  }

  lemma ActiveOf(name: string)
    ensures Active(map[name := true]) == {name} && Active(map[]) == {} && Elements([name]) == {name}
  {
  }

  /** One mount, or one and a second that rests on nothing. */
  lemma MountedDevicesOf(k: Kernel, first: string, rest: seq<string>, devices: map<string, bool>)
    requires k.mountinfo == Some([first] + rest) && k.swaps == Some([])
    requires RestsOn(k, first, Active(devices)) && forall i :: 0 <= i < |rest| ==> RestsOn(k, rest[i], {})
    ensures MountedAre(k, devices) && SwapsAre(k, map[])
  {
    hide MountReadable, MountUses;
    var lines := k.mountinfo.value;
    assert lines[0] == first && forall i :: 1 <= i < |lines| ==> lines[i] == rest[i - 1];
  }

  lemma SourceOf(k: Kernel, path: string, i: nat, filesystem: string, backing: seq<string>)
    requires k.mountinfo.Some? && AllParse(k.mountinfo.value) && IsAbs(path) && Clean(path) == path
    requires IsSelected(k.mountinfo.value, path, i) && RestsOn(k, k.mountinfo.value[i], Elements(backing))
    requires ParseMountRecord(k.mountinfo.value[i]).value.filesystem == filesystem && StrictlySorted(backing)
    ensures IsSource(k, path, SourceInfo(filesystem, backing))
  {
    hide ParseMountRecord, MountReadable, MountUses, Clean, IsSelected, AllParse, SourceUses;
    assert IsSelected(k.mountinfo.value, Clean(path), i);
    OnlyTheSelectedMountCounts(k, path, i);
  }

  // ----- the target and the decision

  function Identity(name: string): TargetIdentity {
    TargetIdentity("/dev/" + name, Serial(), Wwid(), CAPACITY, name, false, [name])
  }

  lemma DevicePath(name: string)
    requires IsDisk(name)
    ensures var path := "/dev/" + name;
      Clean(path) == path == InDev(name) && Base(path) == name == Base(name) && IsAbs(path) && HasPrefix(path, "/dev/")
  {
    DiskNames(name);
    hide IsName, Clean, Base, FirstName, SecondName, ValidLabel;
    BaseOfName(name);
    InDevIsCanonical(name);
  }

  lemma IdentityTexts()
    ensures ValidIdentityText(Serial()) && ValidIdentityText(Wwid())
  {
    IdentityTextGrammar(Serial());
    IdentityTextGrammar(Wwid());
  }

  lemma TargetOfDisk(k: Kernel, name: string)
    requires k.block == TwoDisks() && IsDisk(name)
    ensures IsTarget(k, "/dev/" + name, Identity(name)) && AcceptedTarget(Identity(name))
  {
    hide IsDisk, TwoDisks, IsName, Clean, Base, InDev, Closure, Resolvable, BlockPath, Sectors, ReadOptional, ValidLabel;
    hide HasPrefix, Serial, Wwid, ValidIdentityText;
    DiskNames(name);
    DevicePath(name);
    IdentityTexts();
    DiskStandsAlone(name);
    DiskFiles(name, TwoDisks().sub[name]);
    assert StrictlySorted([name]) && Elements([name]) == {name};
  }

  lemma NamesOfDisk(name: string)
    requires IsDisk(name)
    ensures TargetNames(Identity(name)) == {name}
  {
    DevicePath(name);
    DiskNames(name);
    hide Base, Clean, InDev, IsName, ValidLabel, FirstName, SecondName, IsDisk;
    assert BaseNames([name]) == {name};
    assert BaseNames([name, "/dev/" + name]) == {name};
  }

  /** The disk is apart from the other one and from nothing at all. */
  lemma NamesAreApart(used: set<string>, name: string)
    requires IsDisk(name) && forall d :: d in used ==> IsDisk(d) && d != name
    ensures !Meets(used, TargetNames(Identity(name)))
  {
    NamesOfDisk(name);
    hide Base, FirstName, SecondName, IsDisk, TargetNames;
    forall d | d in used ensures Base(d) == d {
      DevicePath(d);
    }
  }

  function Image(path: string, digest: string, size: int): ImageIdentity {
    ImageIdentity(path, digest, size, size)
  }

  /** A request to write a raw image of `size` bytes at `path` to the disk `name`. */
  function Ask(mode: Mode, name: string, path: string, digest: string, size: int, confirmation: string): Request {
    Request(mode, "/dev/" + name, path, digest, size, confirmation, mode == Live)
  }

  /** A kernel that does not change between observations, and root privilege. */
  function Seen(k: Kernel, size: int): Observations {
    Observations(k, k, k, k, k, 0, Some(size))
  }

  function Granted(request: Request, name: string, size: int, sum: string -> Sum): Inspection
    requires Accepted(Identity(name), Image(request.imagePath, request.sha256, size))
  {
    var image := Image(request.imagePath, request.sha256, size);
    Inspection(request.mode, Identity(name), image, ConfirmationToken(Identity(name), image, sum).value)
  }

  predicate Fits(digest: string, size: int) {
    ValidDigest(digest) && 0 < size <= CAPACITY
  }

  lemma FittingIsAccepted(name: string, path: string, digest: string, size: int)
    requires IsDisk(name) && Fits(digest, size)
    ensures Accepted(Identity(name), Image(path, digest, size))
  {
    hide AcceptedTarget, ValidDigest, Host, TwoDisks, IsTarget;
    HostHasTwoDisks([]);
    TargetOfDisk(Host([]), name);
  }

  lemma HostHasTwoDisks(lines: seq<string>)
    ensures Host(lines).block == TwoDisks() && Host(lines).mountinfo == Some(lines) && Host(lines).swaps == Some([])
    ensures Host(lines).memoryAvailable == Some(MINIMUM_LIVE_AVAILABLE_BYTES) && Host(lines).sysRqTrigger == Some(true)
  {
  }

  lemma CommonGatesFollow(mode: Mode, t: TargetIdentity, i: ImageIdentity, host: HostObservation)
    requires (mode == Rescue || mode == Live) && host.euid == 0 && !t.isPartition
    requires Accepted(t, i) && i.uncompressedBytes <= t.sizeBytes
    requires !Meets(Elements(host.sourceBackingDevices), TargetNames(t))
    ensures AllHold(CommonGates(mode, t, i, host))
  {
    hide Meets, TargetNames, AcceptedTarget, ValidDigest;
  }

  /** What is observed decides: with the gates of the mode held, the inspection is accepted. */
  lemma DecisionFollows(request: Request, k: Kernel, name: string, size: int, sum: string -> Sum, host: HostObservation)
    requires k.block == TwoDisks() && IsDisk(name) && Fits(request.sha256, size) && host.euid == 0
    requires request.targetPath == "/dev/" + name && request.expectedBytes == size
    requires request.mode == Rescue || request.mode == Live
    requires Observed(request, Seen(k, size), host)
    requires !Meets(Elements(host.sourceBackingDevices), TargetNames(Identity(name)))
    requires AllHold(ModeGates(request.mode, Identity(name), host))
    ensures Accepted(Identity(name), Image(request.imagePath, request.sha256, size))
    ensures Justified(request, Seen(k, size), sum, Granted(request, name, size, sum), host)
  {
    hide Observed, IsTarget, TwoDisks, IsDisk, CommonGates, ModeGates, AllHold, Meets, TargetNames, AcceptedTarget;
    hide ValidDigest, ConfirmationToken;
    FittingIsAccepted(name, request.imagePath, request.sha256, size);
    TargetOfDisk(k, name);
    var image := Image(request.imagePath, request.sha256, size);
    CommonGatesFollow(request.mode, Identity(name), image, host);
    AllHoldInBoth(CommonGates(request.mode, Identity(name), image, host), ModeGates(request.mode, Identity(name), host));
  }

  // ----- rescue mode

  lemma RootHoldsEverything(line: string, path: string)
    requires IsRootLine(line) && IsAbs(path)
    ensures IsSelected([line], path, 0) && AllParse([line])
  {
    hide ParseMountRecord;
  }

  lemma ImageAtRoot()
    ensures IsAbs("/image") && Clean("/image") == "/image"
  {
    assert "/image" == Absolute(["image"]);
    AbsoluteIsCanonical(["image"]);
  }

  /** The devices in use: those below the one mount, which also holds the image. */
  ghost function RescueReport(devices: map<string, bool>, filesystem: string, backing: seq<string>): HostObservation {
    HostObservation(0, "", devices, map[], filesystem, backing, 0, false)
  }

  /** One mount, at the root, that holds the image. */
  lemma OneMountIsObserved(
    request: Request, line: string, size: int, filesystem: string, devices: map<string, bool>, backing: seq<string>)
    requires request.mode == Rescue && request.imagePath == "/image" && IsRootLine(line)
    requires ParseMountRecord(line).value.filesystem == filesystem
    requires RestsOn(Host([line]), line, Active(devices)) && Elements(backing) == Active(devices) && StrictlySorted(backing)
    ensures Observed(request, Seen(Host([line]), size), RescueReport(devices, filesystem, backing))
  {
    HostHasTwoDisks([line]);
    ImageAtRoot();
    RootHoldsEverything(line, "/image");
    hide Host, RestsOn, IsSource, MountedAre, SwapsAre, Active, StrictlySorted, ParseMountRecord, IsSelected, Clean;
    hide IsAbs, IsRootLine, AllParse;
    assert [line] + [] == [line];
    MountedDevicesOf(Host([line]), line, [], devices);
    SourceOf(Host([line]), "/image", 0, filesystem, backing);
  }

  lemma RescueGatesHold(name: string, host: HostObservation)
    requires !Meets(Active(host.mountedDevices), TargetNames(Identity(name)))
    requires !Meets(Active(host.swapDevices), TargetNames(Identity(name)))
    ensures AllHold(ModeGates(Rescue, Identity(name), host))
  {
    hide Meets, TargetNames, Active;
  }

  /** Rescue mode accepts the second disk beside a root filesystem on the first, whatever SHA-256 computes. */
  lemma AcceptanceIsPossible(digest: string, size: int, confirmation: string, sum: string -> Sum)
    returns (r: Inspection, host: HostObservation)
    requires Fits(digest, size)
    ensures Justified(
      Ask(Rescue, SecondName(), "/image", digest, size, confirmation), Seen(Host([RootMount("rw")]), size), sum, r, host)
    ensures r.target == Identity(SecondName()) && host.sourceBackingDevices == [FirstName()]
  {
    var line, name := RootMount("rw"), SecondName();
    var k, request := Host([line]), Ask(Rescue, name, "/image", digest, size, confirmation);
    hide Host, RestsOn, Observed, Justified, Meets, TargetNames, Active, Fits, RootMount, ParseMountRecord, FirstName;
    hide SecondName, ModeGates, AllHold, NumberText, TwoDisks, MountedOn, Accepted, ConfirmationToken, StrictlySorted;
    RootMountParses("rw");
    HostHasTwoDisks([line]);
    DisksDiffer();
    ActiveOf(FirstName());
    OneIsSorted(FirstName());
    DiskMount(k, line, FirstName());
    host := RescueReport(map[FirstName() := true], "ext4", [FirstName()]);
    OneMountIsObserved(request, line, size, "ext4", map[FirstName() := true], [FirstName()]);
    NamesAreApart({FirstName()}, name);
    NamesAreApart({}, name);
    RescueGatesHold(name, host);
    DecisionFollows(request, k, name, size, sum, host);
    r := Granted(request, name, size, sum);
  }

  /**
   The same target is accepted when the only mount, which holds the image, has a device number that
   no block device holds: nothing counts as mounted and the image rests on nothing, although the
   line names the target as its source.
   */
  lemma UnresolvedMountIsAccepted(digest: string, size: int, confirmation: string, sum: string -> Sum)
    returns (r: Inspection, host: HostObservation)
    requires Fits(digest, size)
    ensures Justified(
      Ask(Rescue, SecondName(), "/image", digest, size, confirmation), Seen(Host([AnonymousRoot()]), size), sum, r, host)
    ensures r.target == Identity(SecondName()) && host.sourceBackingDevices == [] && Active(host.mountedDevices) == {}
  {
    var line, name := AnonymousRoot(), SecondName();
    var k, request := Host([line]), Ask(Rescue, name, "/image", digest, size, confirmation);
    AnonymousMountsParse();
    HostHasTwoDisks([line]);
    hide Host, RestsOn, Observed, Justified, Meets, TargetNames, Active, Fits, AnonymousRoot, ParseMountRecord;
    hide SecondName, ModeGates, AllHold;
    ActiveOf(name);
    AnonymousMount(k, line);
    host := RescueReport(map[], "btrfs", []);
    assert Elements([]) == {};
    OneMountIsObserved(request, line, size, "btrfs", map[], []);
    NamesAreApart({}, name);
    RescueGatesHold(name, host);
    DecisionFollows(request, k, name, size, sum, host);
    r := Granted(request, name, size, sum);
  }

  // ----- live mode

  function LiveTable(options: string): seq<string> {
    [RootMount(options), MemoryMount()]
  }

  lemma LiveTableParses(options: string)
    requires options == "rw" || options == "ro"
    ensures IsRecord(LiveTable(options)[0], NumberText(FirstName()), "/", "ext4")
    ensures IsRecord(LiveTable(options)[1], ANONYMOUS, "/shm", "tmpfs")
    ensures ParseMountRecord(LiveTable(options)[0]).value.readOnly <==> options == "ro"
    ensures |LiveTable(options)| == 2 && AllParse(LiveTable(options))
  {
    hide RootMount, MemoryMount, ParseMountRecord;
    RootMountParses(options);
    AnonymousMountsParse();
  }

  lemma ImageInMemory()
    ensures IsAbs("/shm/image") && Clean("/shm/image") == "/shm/image" && HasPrefix("/shm/image", "/shm/")
  {
    assert "/shm/image" == Absolute(["shm", "image"]);
    AbsoluteIsCanonical(["shm", "image"]);
  }

  /** Of the two mounts the deeper one holds the image. */
  lemma MemoryIsSelected(lines: seq<string>, path: string)
    requires |lines| == 2 && AllParse(lines) && IsAbs(path) && HasPrefix(path, "/shm/")
    requires ParseMountRecord(lines[0]).value.mountpoint == "/" && ParseMountRecord(lines[1]).value.mountpoint == "/shm"
    ensures IsSelected(lines, path, 1)
  {
    hide ParseMountRecord, HasPrefix;
    assert "/shm" + "/" == "/shm/";
  }

  lemma FirstDiskIsPhysical(root: Node)
    requires root == TwoDisks()
    ensures IsOnlyDisk(root, FirstName(), FirstName())
  {
    hide TwoDisks, FirstName, SecondName, Resolvable, BlockPath, Reaches, HasPrefix, ValidLabel, IsName;
    DiskNames(FirstName());
    DiskStandsAlone(FirstName());
    DiskFiles(FirstName(), root.sub[FirstName()]);
    ReachesItself(root, FirstName());
  }

  /** The root filesystem of the live host is on the first disk alone. */
  lemma RootDiskOf(k: Kernel, line: string)
    requires k.block == TwoDisks() && k.mountinfo.Some? && AllParse(k.mountinfo.value) && k.mountinfo.value != []
    requires line == k.mountinfo.value[0] && IsRootLine(line) && MountedOn(k, line, FirstName())
    ensures IsRootDisk(k, FirstName(), FirstName()) && RootDiskIs(k, "/dev/" + FirstName())
  {
    hide TwoDisks, FirstName, AllParse, IsRootLine, MountedOn, IsOnlyDisk, InDev, Clean, Base, IsAbs, HasPrefix;
    DevicePath(FirstName());
    FirstDiskIsPhysical(k.block);
  }

  ghost function LiveReport(): HostObservation {
    HostObservation(
      0, "/dev/" + FirstName(), map[FirstName() := true], map[], "tmpfs", [], MINIMUM_LIVE_AVAILABLE_BYTES, true)
  }

  ghost predicate IsLiveHost(k: Kernel) {
    && k.block == TwoDisks() && k.mountinfo.Some? && k.swaps == Some([])
    && |k.mountinfo.value| == 2 && AllParse(k.mountinfo.value)
    && IsRecord(k.mountinfo.value[0], NumberText(FirstName()), "/", "ext4")
    && IsRecord(k.mountinfo.value[1], ANONYMOUS, "/shm", "tmpfs")
  }

  lemma LiveMounts(k: Kernel)
    requires IsLiveHost(k)
    ensures MountedOn(k, k.mountinfo.value[0], FirstName()) && RestsOn(k, k.mountinfo.value[0], {FirstName()})
    ensures (forall name :: !MountedOn(k, k.mountinfo.value[1], name)) && !LookupFails(k, k.mountinfo.value[1])
    ensures RestsOn(k, k.mountinfo.value[1], {})
  {
    hide RestsOn, ParseMountRecord, AllParse, NumberText, TwoDisks, MountedOn, FirstName, SecondName, LookupFails;
    DiskMount(k, k.mountinfo.value[0], FirstName());
    AnonymousMount(k, k.mountinfo.value[1]);
  }

  lemma LiveDevices(k: Kernel)
    requires IsLiveHost(k)
    ensures MountedAre(k, map[FirstName() := true]) && SwapsAre(k, map[])
  {
    hide RestsOn, IsRecord, AllParse, NumberText, TwoDisks, MountedOn, FirstName, LookupFails, Active, MountedAre, SwapsAre;
    LiveMounts(k);
    ActiveOf(FirstName());
    var lines, devices := k.mountinfo.value, map[FirstName() := true];
    assert RestsOn(k, lines[0], Active(devices));
    assert lines == [lines[0]] + lines[1..];
    MountedDevicesOf(k, lines[0], lines[1..], devices);
  }

  lemma LiveSource(k: Kernel)
    requires IsLiveHost(k)
    ensures IsSource(k, "/shm/image", SourceInfo("tmpfs", []))
  {
    LiveMounts(k);
    hide RestsOn, AllParse, NumberText, TwoDisks, MountedOn, FirstName, LookupFails, IsSource, IsSelected, ParseMountRecord;
    hide Clean, IsAbs, HasPrefix;
    ImageInMemory();
    MemoryIsSelected(k.mountinfo.value, "/shm/image");
    assert Elements([]) == {};
    SourceOf(k, "/shm/image", 1, "tmpfs", []);
  }

  lemma LiveRoot(k: Kernel)
    requires IsLiveHost(k)
    ensures IsRootDisk(k, FirstName(), FirstName()) && RootDiskIs(k, "/dev/" + FirstName())
  {
    LiveMounts(k);
    hide RestsOn, AllParse, NumberText, TwoDisks, MountedOn, FirstName, LookupFails, ParseMountRecord, IsRootDisk;
    hide RootDiskIs;
    RootDiskOf(k, k.mountinfo.value[0]);
  }

  lemma TableOfLiveHost(options: string)
    requires options == "rw" || options == "ro"
    ensures IsLiveHost(Host(LiveTable(options)))
  {
    hide LiveTable, TwoDisks, IsRecord, AllParse, NumberText, FirstName;
    LiveTableParses(options);
  }

  lemma LiveHostIsObserved(request: Request, k: Kernel, size: int)
    requires request.mode == Live && request.imagePath == "/shm/image" && IsLiveHost(k)
    requires k.memoryAvailable == Some(MINIMUM_LIVE_AVAILABLE_BYTES) && k.sysRqTrigger == Some(true)
    ensures Observed(request, Seen(k, size), LiveReport())
  {
    hide IsLiveHost, IsSource, MountedAre, SwapsAre, RootDiskIs, IsRootDisk, FirstName;
    LiveDevices(k);
    LiveSource(k);
    LiveRoot(k);
  }

  lemma LiveGatesHold(t: TargetIdentity, host: HostObservation)
    requires host.rootDisk == t.canonicalPath == Clean(t.canonicalPath) && host.sourceFilesystem == "tmpfs"
    requires host.memoryAvailableBytes >= MINIMUM_LIVE_AVAILABLE_BYTES && host.sysRqTriggerAvailable
    ensures AllHold(ModeGates(Live, t, host))
  {
    hide Clean;
  }

  /** Live mode accepts the disk under the root filesystem when the image is in memory. */
  lemma LiveAcceptanceIsPossible(digest: string, size: int, confirmation: string, sum: string -> Sum)
    returns (r: Inspection, host: HostObservation)
    requires Fits(digest, size)
    ensures Justified(
      Ask(Live, FirstName(), "/shm/image", digest, size, confirmation), Seen(Host(LiveTable("rw")), size), sum, r, host)
    ensures r.target == Identity(FirstName()) && IsRootDisk(Host(LiveTable("rw")), FirstName(), FirstName())
  {
    var k, name := Host(LiveTable("rw")), FirstName();
    var request := Ask(Live, name, "/shm/image", digest, size, confirmation);
    HostHasTwoDisks(LiveTable("rw"));
    hide Host, Observed, Justified, Meets, TargetNames, Fits, FirstName, SecondName, ModeGates, AllHold, IsRootDisk;
    hide Clean, Base, InDev, HasPrefix;
    hide IsLiveHost;
    TableOfLiveHost("rw");
    LiveRoot(k);
    LiveHostIsObserved(request, k, size);
    host := LiveReport();
    assert Elements([]) == {};
    NamesAreApart({}, name);
    DevicePath(name);
    LiveGatesHold(Identity(name), host);
    DecisionFollows(request, k, name, size, sum, host);
    r := Granted(request, name, size, sum);
  }

  /** Once its root is read-only, the same host proves the remount. */
  lemma ReadOnlyHost()
    ensures BlockMountsAreReadOnly(Host(LiveTable("ro")))
  {
    LiveTableParses("ro");
    HostHasTwoDisks(LiveTable("ro"));
    TableOfLiveHost("ro");
    hide Host, LiveTable, RestsOn, ParseMountRecord, FirstName, TwoDisks, MountedOn, LookupFails, BlockMountsAreReadOnly;
    hide IsRecord, AllParse, NumberText;
    LiveMounts(Host(LiveTable("ro")));
    OneReadOnlyMount(Host(LiveTable("ro")), FirstName());
  }

  /** Before that the same check says no, although its superblock options end in "ro". */
  lemma WritableHost()
    ensures !BlockMountsAreReadOnly(Host(LiveTable("rw")))
  {
    LiveTableParses("rw");
    HostHasTwoDisks(LiveTable("rw"));
    TableOfLiveHost("rw");
    hide Host, LiveTable, RestsOn, ParseMountRecord, FirstName, TwoDisks, MountedOn, LookupFails, IsRecord, AllParse;
    hide NumberText;
    LiveMounts(Host(LiveTable("rw")));
  }

  lemma OneReadOnlyMount(k: Kernel, name: string)
    requires k.mountinfo.Some? && AllParse(k.mountinfo.value) && |k.mountinfo.value| == 2
    requires MountedOn(k, k.mountinfo.value[0], name) && ParseMountRecord(k.mountinfo.value[0]).value.readOnly
    requires !LookupFails(k, k.mountinfo.value[1]) && forall other :: !MountedOn(k, k.mountinfo.value[1], other)
    ensures BlockMountsAreReadOnly(k)
  {
    hide ParseMountRecord, NameByDeviceNumber;
  }
}
