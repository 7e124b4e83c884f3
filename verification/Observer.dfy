/**
 What the program learns from one procfs and sysfs snapshot: which devices mounts, swap
 areas and the image source rest on, the root disk, and the identity of the target.
 */
module Observer {
  import opened Basics
  import opened Text
  import opened Lexicographic
  import opened Paths
  import opened Procfs
  import opened Sysfs
  import opened Model

  /** `None` stands for a file that cannot be opened or read to its end. */
  datatype Kernel = Kernel(
    block: Node,
    mountinfo: Option<seq<string>>,
    swaps: Option<seq<string>>,
    memoryAvailable: Option<int>,
    sysRqTrigger: Option<bool>)

  // ----- device numbers

  datatype Lookup = Failed | Absent | Found(name: string)

  function LookupIn(root: Node, parents: seq<string>, device: string): Lookup {
    if parents == [] then Absent
    else
      var p := parents[0];
      if !root.Has(p) || root.sub[p].listing.None? then Failed
      else if root.sub[p].Read("dev") == Some(device) then Found(p)
      else
        var child := First(root.sub[p].listing.value, c => root.sub[p].ReadBelow(c, "dev") == Some(device));
        if child.Some? then Found(child.value) else LookupIn(root, parents[1..], device)
  }

  /** The device whose "dev" file holds `device`, in the order directories are read. */
  function NameByDeviceNumber(root: Node, device: string): Lookup {
    if root.listing.None? then Failed else LookupIn(root, Sort(root.listing.value), device)
  }

  /** A top-level directory or one directly below it is named `name` and holds this number. */
  ghost predicate HasNumber(root: Node, parent: string, name: string, device: string) {
    && root.Has(parent) && root.sub[parent].listing.Some?
    && (|| (name == parent && root.sub[parent].Read("dev") == Some(device))
        || (name in root.sub[parent].listing.value && root.sub[parent].ReadBelow(name, "dev") == Some(device)))
  }

  ghost predicate HoldsNumber(root: Node, parent: string, device: string) {
    exists name :: HasNumber(root, parent, name, device)
  }

  ghost predicate IsReadable(root: Node, parent: string) {
    parent in root.sub && root.sub[parent].listing.Some?
  }

  /** The search has passed every directory in `parents`: readable, and without the number. */
  ghost predicate Passed(root: Node, parents: seq<string>, device: string) {
    forall i :: 0 <= i < |parents| ==> IsReadable(root, parents[i]) && !HoldsNumber(root, parents[i], device)
  }

  /** `name` is what directory `p` answers; its own number comes before those below it. */
  ghost predicate Answers(root: Node, p: string, name: string, device: string) {
    HasNumber(root, p, name, device) && (root.sub[p].Read("dev") == Some(device) ==> name == p)
  }

  lemma LookupStep(root: Node, parents: seq<string>, device: string)
    requires parents != []
    ensures !IsReadable(root, parents[0]) ==> LookupIn(root, parents, device) == Failed
    ensures HoldsNumber(root, parents[0], device) ==>
      LookupIn(root, parents, device).Found? && Answers(root, parents[0], LookupIn(root, parents, device).name, device)
    ensures IsReadable(root, parents[0]) && !HoldsNumber(root, parents[0], device) ==>
      LookupIn(root, parents, device) == LookupIn(root, parents[1..], device)
  {
    var p := parents[0];
    if IsReadable(root, p) {
      hide First;
      var child := First(root.sub[p].listing.value, c => root.sub[p].ReadBelow(c, "dev") == Some(device));
      assert child.Some? ==> HasNumber(root, p, child.value, device);
      assert root.sub[p].Read("dev") == Some(device) ==> HasNumber(root, p, p, device);
    }
  }

  /** The search ends at the first directory that holds the number or cannot be read. */
  lemma {:induction false} LookupIsCorrect(root: Node, parents: seq<string>, device: string) returns (i: nat)
    ensures i <= |parents| && Passed(root, parents[..i], device)
    ensures
      match LookupIn(root, parents, device)
      case Found(name) => i < |parents| && Answers(root, parents[i], name, device)
      case Failed => i < |parents| && !IsReadable(root, parents[i])
      case Absent => i == |parents|
  {
    hide IsReadable, HoldsNumber, Answers, LookupIn;
    i := 0;
    if parents == [] {
      LookupOfNothing(root, device);
    } else {
      LookupStep(root, parents, device);
      ReadableHolder(root, parents[0], device);
      if IsReadable(root, parents[0]) && !HoldsNumber(root, parents[0], device) {
        var rest := LookupIsCorrect(root, parents[1..], device);
        i := rest + 1;
        assert parents[..i] == [parents[0]] + parents[1..][..rest];
      }
    }
  }

  lemma LookupOfNothing(root: Node, device: string)
    ensures LookupIn(root, [], device) == Absent
  {
  }

  lemma ReadableHolder(root: Node, p: string, device: string)
    ensures HoldsNumber(root, p, device) ==> IsReadable(root, p)
    ensures forall name :: Answers(root, p, name, device) ==> HoldsNumber(root, p, device)
  {
  }

  /** No listed directory before `p`, in sorted order, holds the number. */
  ghost predicate NoneBefore(root: Node, p: string, device: string) {
    root.listing.Some? && forall q :: q in root.listing.value && Less(q, p) ==> !HoldsNumber(root, q, device)
  }

  /**
   A found name holds the number and no earlier directory does; absence means that every directory
   is readable and none holds it; the lookup fails exactly when some directory cannot be read and
   none before it holds the number.
   */
  lemma NameByDeviceNumberIsCorrect(root: Node, device: string)
    ensures NameByDeviceNumber(root, device).Found? ==>
      exists p :: root.listing.Some? && p in root.listing.value && NoneBefore(root, p, device)
                  && Answers(root, p, NameByDeviceNumber(root, device).name, device)
    ensures NameByDeviceNumber(root, device) == Absent ==>
      root.listing.Some? && forall p :: p in root.listing.value ==> IsReadable(root, p) && !HoldsNumber(root, p, device)
    ensures NameByDeviceNumber(root, device) == Failed <==>
      || root.listing.None?
      || exists p :: p in root.listing.value && !IsReadable(root, p) && NoneBefore(root, p, device)
  {
    if root.listing.Some? {
      hide LookupIn, HoldsNumber, IsReadable, Sort, Answers, Less, NoneBefore, Passed, Sorted;
      var sorted := Sort(root.listing.value);
      var i := LookupIsCorrect(root, sorted, device);
      if i == |sorted| {
        AllPassed(root, sorted, device);
      } else {
        assert sorted[i] in root.listing.value;
        StopIsFirst(root, sorted, i, device);
        ReadableHolder(root, sorted[i], device);
        forall p | p in root.listing.value && !IsReadable(root, p) && NoneBefore(root, p, device)
          ensures !HoldsNumber(root, sorted[i], device)
        {
          LaterIsNotBefore(root, sorted, i, p, device);
        }
      }
    }
  }

  lemma AllPassed(root: Node, sorted: seq<string>, device: string)
    requires Passed(root, sorted[..|sorted|], device)
    ensures forall p :: p in sorted ==> IsReadable(root, p) && !HoldsNumber(root, p, device)
  {
    hide HoldsNumber, IsReadable;
    assert sorted[..|sorted|] == sorted;
  }

  lemma StopIsFirst(root: Node, sorted: seq<string>, i: nat, device: string)
    requires root.listing.Some? && Sorted(sorted) && (forall y :: y in sorted <==> y in root.listing.value)
    requires i < |sorted| && Passed(root, sorted[..i], device)
    ensures NoneBefore(root, sorted[i], device)
  {
    hide Less, HoldsNumber, IsReadable;
    forall q | q in root.listing.value && Less(q, sorted[i]) ensures !HoldsNumber(root, q, device) {
      var j :| 0 <= j < |sorted| && sorted[j] == q;
      LessIsTotal(q, q);
      assert sorted[..i][j] == q;
    }
  }

  lemma LaterIsNotBefore(root: Node, sorted: seq<string>, i: nat, p: string, device: string)
    requires root.listing.Some? && Sorted(sorted) && (forall y :: y in sorted <==> y in root.listing.value)
    requires i < |sorted| && p in sorted && Passed(root, sorted[..i], device)
    requires !IsReadable(root, p) && NoneBefore(root, p, device)
    ensures !HoldsNumber(root, sorted[i], device)
  {
    hide Less, HoldsNumber, IsReadable;
    var k :| 0 <= k < |sorted| && sorted[k] == p;
    ReadableHolder(root, sorted[i], device);
    forall j | 0 <= j < i ensures IsReadable(root, sorted[j]) {
      assert sorted[j] == sorted[..i][j];
    }
    LessIsTotal(sorted[i], sorted[k]);
    assert sorted[i] in sorted;
  }

  // ----- mounts

  ghost predicate AllParse(lines: seq<string>) {
    forall i :: 0 <= i < |lines| ==> ParseMountRecord(lines[i]).Some?
  }

  method Mounts(k: Kernel) returns (r: Option<seq<MountRecord>>)
    ensures r.Some? <==> k.mountinfo.Some? && AllParse(k.mountinfo.value)
    ensures r.Some? ==> |r.value| == |k.mountinfo.value|
    ensures r.Some? ==> forall i :: 0 <= i < |r.value| ==> ParseMountRecord(k.mountinfo.value[i]) == Some(r.value[i])
  {
    if k.mountinfo.None? {
      return None;
    }
    r := ParseMounts(k.mountinfo.value);
  }

  /** `name` is the device under the mount on this line. */
  predicate MountedOn(k: Kernel, line: string, name: string) {
    ParseMountRecord(line).Some?
    && NameByDeviceNumber(k.block, ParseMountRecord(line).value.device) == Found(name)
  }

  /** Device `n` carries the mount on this line, directly or through any chain of relations. */
  ghost predicate MountUses(k: Kernel, line: string, n: string) {
    exists name :: MountedOn(k, line, name) && Reaches(k.block, name, n)
  }

  predicate LookupFails(k: Kernel, line: string) {
    ParseMountRecord(line).Some?
    && NameByDeviceNumber(k.block, ParseMountRecord(line).value.device) == Failed
  }

  ghost predicate MountReadable(k: Kernel, line: string) {
    && ParseMountRecord(line).Some?
    && !LookupFails(k, line)
    && forall name :: MountedOn(k, line, name) ==> Resolvable(k.block, name)
  }

  ghost predicate AllTrue(m: map<string, bool>) {
    forall n :: n in m ==> m[n]
  }

  /** Adds a device and everything it depends on to a set of names. */
  method Expand(result: map<string, bool>, root: Node, name: string) returns (r: Option<map<string, bool>>)
    requires AllTrue(result)
    ensures r.Some? <==> Resolvable(root, name)
    ensures r.Some? ==> AllTrue(r.value) && r.value.Keys == result.Keys + Closure(root, name)
  {
    var related := Related(root, name);
    if related.None? {
      return None;
    }
    var grown := AddAll(result, related.value);
    r := Some(grown);
  }

  method AddAll(result: map<string, bool>, names: seq<string>) returns (r: map<string, bool>)
    requires AllTrue(result)
    ensures AllTrue(r) && r.Keys == result.Keys + Elements(names)
  {
    r := result;
    for i := 0 to |names|
      invariant AllTrue(r) && r.Keys == result.Keys + Elements(names[..i])
    {
      r := r[names[i] := true];
      assert names[..i + 1] == names[..i] + [names[i]];
    }
    assert names[..|names|] == names;
  }

  /** Exactly the devices some mount rests on; refused when any line or relation is unreadable. */
  method MountedDevices(k: Kernel) returns (r: Option<map<string, bool>>)
    ensures r.Some? <==>
      k.mountinfo.Some? && forall i :: 0 <= i < |k.mountinfo.value| ==> MountReadable(k, k.mountinfo.value[i])
    ensures r.Some? ==> AllTrue(r.value)
    ensures r.Some? ==> forall n ::
      n in r.value <==> exists i :: 0 <= i < |k.mountinfo.value| && MountUses(k, k.mountinfo.value[i], n)
  {
    hide NameByDeviceNumber, ParseMountRecord, MountUses, Reaches, Resolvable;
    var records := Mounts(k);
    if records.None? {
      return None;
    }
    ghost var lines := k.mountinfo.value;
    var result: map<string, bool> := map[];
    for c := 0 to |records.value|
      invariant AllTrue(result)
      invariant forall i :: 0 <= i < c ==> MountReadable(k, lines[i])
      invariant forall n :: n in result <==> exists i :: 0 <= i < c && MountUses(k, lines[i], n)
    {
      var found := NameByDeviceNumber(k.block, records.value[c].device);
      if found.Found? {
        UsesOfFoundMount(k, lines[c], found.name);
      } else {
        UsesOfAbsentMount(k, lines[c]);
      }
      if found.Failed? {
        return None;
      }
      if found.Found? {
        var grown := Expand(result, k.block, found.name);
        if grown.None? {
          return None;
        }
        result := grown.value;
      }
    }
    r := Some(result);
  }

  lemma UsesOfAbsentMount(k: Kernel, line: string)
    requires ParseMountRecord(line).Some?
    requires !NameByDeviceNumber(k.block, ParseMountRecord(line).value.device).Found?
    ensures forall n :: !MountUses(k, line, n)
    ensures MountReadable(k, line) <==> !LookupFails(k, line)
  {
    hide NameByDeviceNumber, ParseMountRecord, Resolvable;
  }

  lemma UsesOfFoundMount(k: Kernel, line: string, name: string)
    requires MountedOn(k, line, name)
    ensures forall n :: MountUses(k, line, n) <==> n in Closure(k.block, name)
    ensures MountReadable(k, line) <==> Resolvable(k.block, name)
  {
    hide NameByDeviceNumber, ParseMountRecord, Resolvable, Reaches;
  }

  /** True exactly when some mount is block-backed and every block-backed mount is read-only. */
  ghost predicate BlockMountsAreReadOnly(k: Kernel) {
    && k.mountinfo.Some? && AllParse(k.mountinfo.value)
    && (forall i :: 0 <= i < |k.mountinfo.value| ==> !LookupFails(k, k.mountinfo.value[i]))
    && (exists i, name :: 0 <= i < |k.mountinfo.value| && MountedOn(k, k.mountinfo.value[i], name))
    && (forall i, name :: 0 <= i < |k.mountinfo.value| && MountedOn(k, k.mountinfo.value[i], name) ==>
          ParseMountRecord(k.mountinfo.value[i]).value.readOnly)
  }

  predicate IsWritableMount(k: Kernel, line: string) {
    ParseMountRecord(line).Some? && !ParseMountRecord(line).value.readOnly
    && NameByDeviceNumber(k.block, ParseMountRecord(line).value.device).Found?
  }

  /** The table cannot be read, or a lookup fails before any writable block-backed mount answers no. */
  ghost predicate MountsUnreadable(k: Kernel) {
    || k.mountinfo.None? || !AllParse(k.mountinfo.value)
    || exists i :: 0 <= i < |k.mountinfo.value| && LookupFails(k, k.mountinfo.value[i])
                   && forall j :: 0 <= j < i ==> !IsWritableMount(k, k.mountinfo.value[j])
  }

  method BlockMountsReadOnly(k: Kernel) returns (r: Option<bool>)
    ensures r == Some(true) <==> BlockMountsAreReadOnly(k)
    ensures r.None? <==> MountsUnreadable(k)
  {
    hide NameByDeviceNumber, ParseMountRecord;
    var mounts := Mounts(k);
    if mounts.None? {
      return None;
    }
    ghost var lines := k.mountinfo.value;
    var found := false;
    for c := 0 to |mounts.value|
      invariant forall i :: 0 <= i < c ==> !LookupFails(k, lines[i])
      invariant found <==> exists i, name :: 0 <= i < c && MountedOn(k, lines[i], name)
      invariant forall i, name :: 0 <= i < c && MountedOn(k, lines[i], name) ==> ParseMountRecord(lines[i]).value.readOnly
      invariant forall i :: 0 <= i < c ==> !IsWritableMount(k, lines[i])
    {
      var device := NameByDeviceNumber(k.block, mounts.value[c].device);
      if device.Failed? {
        assert LookupFails(k, lines[c]);
        return None;
      }
      if device.Found? {
        assert MountedOn(k, lines[c], device.name);
        found := true;
        if !mounts.value[c].readOnly {
          assert IsWritableMount(k, lines[c]);
          return Some(false);
        }
      }
    }
    r := Some(found);
  }

  // ----- the mount that holds a path

  predicate Contains(line: string, path: string) {
    ParseMountRecord(line).Some? && PathWithin(path, ParseMountRecord(line).value.mountpoint)
  }

  function Depth(line: string): nat {
    if ParseMountRecord(line).Some? then |ParseMountRecord(line).value.mountpoint| else 0
  }

  /** Line `i` is the earliest of the longest mountpoints that contain `path`. */
  ghost predicate IsSelected(lines: seq<string>, path: string, i: nat) {
    && i < |lines| && Contains(lines[i], path)
    && forall j :: 0 <= j < |lines| && Contains(lines[j], path) ==>
         Depth(lines[j]) <= Depth(lines[i]) && (j < i ==> Depth(lines[j]) < Depth(lines[i]))
  }

  method SelectMount(records: seq<MountRecord>, path: string, ghost lines: seq<string>) returns (r: Option<nat>)
    requires |records| == |lines|
    requires forall i :: 0 <= i < |lines| ==> ParseMountRecord(lines[i]) == Some(records[i])
    ensures r.Some? ==> IsSelected(lines, path, r.value)
    ensures r.None? ==> forall i :: 0 <= i < |lines| ==> !Contains(lines[i], path)
  {
    hide PathWithin, ParseMountRecord;
    r := None;
    for c := 0 to |records|
      invariant r.Some? ==> r.value < c && IsSelected(lines[..c], path, r.value)
      invariant r.None? ==> forall i :: 0 <= i < c ==> !Contains(lines[i], path)
    {
      if PathWithin(path, records[c].mountpoint)
         && (r.None? || |records[c].mountpoint| > |records[r.value].mountpoint|)
      {
        r := Some(c);
      }
      assert lines[..c + 1] == lines[..c] + [lines[c]];
    }
    assert lines[..|records|] == lines;
  }

  /** For canonical mountpoints the selected one is the deepest: every other container holds it. */
  lemma SelectedIsDeepest(lines: seq<string>, path: string, i: nat, j: nat)
    requires IsCanonical(path) && IsSelected(lines, path, i) && j < |lines| && Contains(lines[j], path)
    requires IsCanonical(ParseMountRecord(lines[i]).value.mountpoint)
    requires IsCanonical(ParseMountRecord(lines[j]).value.mountpoint)
    ensures
      var selected, other := Components(ParseMountRecord(lines[i]).value.mountpoint),
                             Components(ParseMountRecord(lines[j]).value.mountpoint);
      other <= selected <= Components(path) && (other == selected ==> i <= j)
  {
    var selected, other := ParseMountRecord(lines[i]).value.mountpoint, ParseMountRecord(lines[j]).value.mountpoint;
    ContainersFormAChain(path, other, selected);
    PathWithinIsComponentPrefix(path, selected);
    PathWithinIsComponentPrefix(other, selected);
    PathWithinIsComponentPrefix(selected, other);
    assert PathWithin(selected, other);
  }

  lemma SelectionIsUnique(lines: seq<string>, path: string, i: nat, j: nat)
    requires IsSelected(lines, path, i) && IsSelected(lines, path, j)
    ensures i == j
  {
  }

  /** Device `n` carries the filesystem that holds `path`. */
  ghost predicate SourceUses(k: Kernel, path: string, n: string) {
    k.mountinfo.Some?
    && exists i: nat :: IsSelected(k.mountinfo.value, Clean(path), i) && MountUses(k, k.mountinfo.value[i], n)
  }

  datatype SourceInfo = SourceInfo(filesystem: string, backing: seq<string>)

  ghost predicate IsSource(k: Kernel, path: string, s: SourceInfo) {
    && IsAbs(Clean(path)) && k.mountinfo.Some? && AllParse(k.mountinfo.value)
    && (exists i: nat ::
          && IsSelected(k.mountinfo.value, Clean(path), i)
          && MountReadable(k, k.mountinfo.value[i])
          && s.filesystem == ParseMountRecord(k.mountinfo.value[i]).value.filesystem)
    && StrictlySorted(s.backing)
    && forall n :: n in s.backing <==> SourceUses(k, path, n)
  }

  /** The filesystem of the deepest containing mount and every device below it, or a refusal. */
  method Source(k: Kernel, path: string) returns (r: Option<SourceInfo>)
    ensures r.Some? ==> IsSource(k, path, r.value)
    ensures r.None? ==> forall s :: !IsSource(k, path, s)
  {
    hide NameByDeviceNumber, ParseMountRecord, MountUses, MountReadable, Reaches, Resolvable, Clean;
    var cleaned := Clean(path);
    if !IsAbs(cleaned) {
      return None;
    }
    var records := Mounts(k);
    if records.None? {
      return None;
    }
    ghost var lines := k.mountinfo.value;
    var selected := SelectMount(records.value, cleaned, lines);
    if selected.None? {
      return None;
    }
    var record := records.value[selected.value];
    ghost var line := lines[selected.value];
    OnlyTheSelectedMountCounts(k, path, selected.value);
    var found := NameByDeviceNumber(k.block, record.device);
    if !found.Found? {
      UsesOfAbsentMount(k, line);
    }
    match found {
      case Failed =>
        return None;
      case Absent =>
        return Some(SourceInfo(record.filesystem, []));
      case Found(name) =>
        var backing := Related(k.block, name);
        UsesOfFoundMount(k, line, name);
        if backing.None? {
          return None;
        }
        return Some(SourceInfo(record.filesystem, backing.value));
    }
  }

  lemma OnlyTheSelectedMountCounts(k: Kernel, path: string, i: nat)
    requires k.mountinfo.Some? && IsSelected(k.mountinfo.value, Clean(path), i)
    ensures forall j: nat :: IsSelected(k.mountinfo.value, Clean(path), j) ==> j == i
    ensures forall n :: SourceUses(k, path, n) <==> MountUses(k, k.mountinfo.value[i], n)
  {
    hide ParseMountRecord, NameByDeviceNumber, MountUses, Clean, IsSelected;
    forall j: nat | IsSelected(k.mountinfo.value, Clean(path), j) ensures j == i {
      SelectionIsUnique(k.mountinfo.value, Clean(path), i, j);
    }
  }

  /** An empty backing list means that the device number of the selected mount resolves to nothing. */
  lemma BackingIsEmptyExactlyWhenUnresolved(k: Kernel, path: string, s: SourceInfo, i: nat)
    requires IsSource(k, path, s) && IsSelected(k.mountinfo.value, Clean(path), i)
    ensures s.backing == [] <==> forall name :: !MountedOn(k, k.mountinfo.value[i], name)
  {
    OnlyTheSelectedMountCounts(k, path, i);
    hide IsSelected, MountedOn, SourceUses, Clean, MountReadable, Reaches;
    assert s.backing != [] ==> s.backing[0] in s.backing;
    if name :| MountedOn(k, k.mountinfo.value[i], name) {
      ReachesItself(k.block, name);
      assert MountUses(k, k.mountinfo.value[i], name) && name in s.backing;
    }
  }

  // ----- swap

  /** Device `n` carries the swap area on this line. */
  ghost predicate SwapUses(k: Kernel, line: string, n: string) {
    var record := ParseSwapRecord(line);
    record.Some?
    && if record.value.kind == "partition" then Reaches(k.block, Base(record.value.source), n)
       else record.value.kind == "file" && SourceUses(k, record.value.source, n)
  }

  ghost predicate SwapReadable(k: Kernel, line: string) {
    var record := ParseSwapRecord(line);
    record.Some?
    && if record.value.kind == "partition" then Resolvable(k.block, Base(record.value.source))
       else record.value.kind == "file" && exists s :: IsSource(k, record.value.source, s) && s.backing != []
  }

  /** A swap partition rests on its device, a swap file on whatever holds the file; no other kind is readable. */
  lemma SwapKinds(k: Kernel, line: string, source: string, kind: string)
    requires ParseSwapRecord(line) == Some(SwapRecord(source, kind))
    ensures kind == "partition" ==> forall n :: SwapUses(k, line, n) <==> Reaches(k.block, Base(source), n)
    ensures kind == "file" ==> forall n :: SwapUses(k, line, n) <==> SourceUses(k, source, n)
    ensures kind != "partition" && kind != "file" ==> !SwapReadable(k, line)
  {
    hide ParseSwapRecord, Reaches, SourceUses, Base, IsSource, Resolvable;
  }

  lemma ReadableSwapsParse(k: Kernel)
    ensures forall line :: SwapReadable(k, line) ==> ParseSwapRecord(line).Some?
  {
  }

  /** Exactly the devices some swap area rests on; any unreadable or unbacked area refuses all. */
  method SwapDevices(k: Kernel) returns (r: Option<map<string, bool>>)
    ensures r.Some? <==> k.swaps.Some? && forall i :: 1 <= i < |k.swaps.value| ==> SwapReadable(k, k.swaps.value[i])
    ensures r.Some? ==> AllTrue(r.value)
    ensures r.Some? ==> forall n ::
      n in r.value <==> exists i :: 1 <= i < |k.swaps.value| && SwapUses(k, k.swaps.value[i], n)
  {
    hide ParseSwapRecord, SwapUses, SwapReadable;
    ReadableSwapsParse(k);
    if k.swaps.None? {
      return None;
    }
    var records := ParseSwaps(k.swaps.value);
    if records.None? {
      return None;
    }
    ghost var lines := k.swaps.value;
    var result: map<string, bool> := map[];
    for c := 0 to |records.value|
      invariant AllTrue(result)
      invariant forall i :: 1 <= i <= c ==> SwapReadable(k, lines[i])
      invariant forall n :: n in result <==> exists i :: 1 <= i <= c && SwapUses(k, lines[i], n)
    {
      var grown := AddSwap(k, result, records.value[c], lines[c + 1]);
      if grown.None? {
        return None;
      }
      result := grown.value;
    }
    r := Some(result);
  }

  method AddSwap(k: Kernel, result: map<string, bool>, record: SwapRecord, ghost line: string)
    returns (r: Option<map<string, bool>>)
    requires AllTrue(result) && ParseSwapRecord(line) == Some(record)
    ensures r.Some? <==> SwapReadable(k, line)
    ensures r.Some? ==> AllTrue(r.value) && forall n :: n in r.value <==> n in result || SwapUses(k, line, n)
  {
    hide ParseSwapRecord, Reaches, Resolvable, SourceUses, Base;
    if record.kind == "partition" {
      r := Expand(result, k.block, Base(record.source));
    } else if record.kind == "file" {
      var source := Source(k, record.source);
      if source.None? {
        return None;
      }
      if source.value.backing == [] {
        forall s | IsSource(k, record.source, s) ensures s.backing == [] {
          SourceIsDetermined(k, record.source, source.value, s);
        }
        return None;
      }
      var grown := AddAll(result, source.value.backing);
      r := Some(grown);
    } else {
      r := None;
    }
  }

  lemma SourceIsDetermined(k: Kernel, path: string, s: SourceInfo, t: SourceInfo)
    requires IsSource(k, path, s) && IsSource(k, path, t)
    ensures s == t
  {
    hide SourceUses, MountReadable, ParseMountRecord, Clean;
    var i: nat :| IsSelected(k.mountinfo.value, Clean(path), i) && MountReadable(k, k.mountinfo.value[i])
                  && s.filesystem == ParseMountRecord(k.mountinfo.value[i]).value.filesystem;
    OnlyTheSelectedMountCounts(k, path, i);
    CanonicalForm(s.backing, t.backing);
  }

  // ----- the root disk

  /** A whole disk: no partition marker, no slaves, not a device-mapper name. */
  predicate IsPhysical(root: Node, name: string) {
    var node := BlockPath(root, name);
    node.Some? && !node.value.IsPartition() && node.value.Slaves() == Some([]) && !HasPrefix(name, "dm-")
  }

  predicate IsRootLine(line: string) {
    ParseMountRecord(line).Some? && ParseMountRecord(line).value.mountpoint == "/"
  }

  ghost predicate IsRootMount(k: Kernel, name: string) {
    k.mountinfo.Some? && AllParse(k.mountinfo.value)
    && exists i :: 0 <= i < |k.mountinfo.value| && IsRootLine(k.mountinfo.value[i])
                   && MountedOn(k, k.mountinfo.value[i], name)
                   && forall j :: 0 <= j < i ==> !IsRootLine(k.mountinfo.value[j])
  }

  /** `disk` is the only physical disk below `name`, and everything below `name` resolves. */
  ghost predicate IsOnlyDisk(root: Node, name: string, disk: string) {
    && Resolvable(root, name) && Reaches(root, name, disk) && IsPhysical(root, disk)
    && forall d :: Reaches(root, name, d) && IsPhysical(root, d) ==> d == disk
  }

  ghost predicate IsRootDisk(k: Kernel, name: string, disk: string) {
    IsRootMount(k, name) && IsOnlyDisk(k.block, name, disk)
  }

  /** The root disk is a whole disk, and everything else below the root mount is a partition, stacked or device-mapper. */
  lemma RootDiskIsWhole(k: Kernel, name: string, disk: string, other: string)
    requires IsRootDisk(k, name, disk) && Reaches(k.block, name, other)
    ensures
      var node := BlockPath(k.block, other);
      other == disk <==>
        && node.Some? && "partition" !in node.value.sub && !("dm-" <= other)
        && forall s :: !ListsSlave(k.block, other, s)
  {
    hide Reaches, BlockPath, IsRootMount;
    assert !Broken(k.block, name, other);
    var node := BlockPath(k.block, other).value;
    assert node.Slaves().value != [] ==> ListsSlave(k.block, other, node.Slaves().value[0]);
  }

  lemma FirstRootLineIsTheRootMount(k: Kernel, i: nat)
    requires k.mountinfo.Some? && AllParse(k.mountinfo.value) && i < |k.mountinfo.value|
    requires IsRootLine(k.mountinfo.value[i])
    requires forall j :: 0 <= j < i ==> !IsRootLine(k.mountinfo.value[j])
    ensures forall name :: IsRootMount(k, name) <==> MountedOn(k, k.mountinfo.value[i], name)
  {
    hide ParseMountRecord, NameByDeviceNumber, IsRootLine, MountedOn;
  }

  method RootDisk(k: Kernel) returns (r: Option<string>)
    ensures r.Some? ==> exists name, disk :: IsRootDisk(k, name, disk) && r.value == InDev(disk)
    ensures r.None? ==> forall name, disk :: !IsRootDisk(k, name, disk)
  {
    hide NameByDeviceNumber, ParseMountRecord, IsPhysical, Reaches, Resolvable, InDev;
    var records := Mounts(k);
    if records.None? {
      return None;
    }
    ghost var lines := k.mountinfo.value;
    for i := 0 to |records.value|
      invariant forall j :: 0 <= j < i ==> !IsRootLine(lines[j])
    {
      if records.value[i].mountpoint == "/" {
        assert IsRootLine(lines[i]);
        FirstRootLineIsTheRootMount(k, i);
        ghost var name;
        r, name := PhysicalRootDisk(k, records.value[i].device);
        if r.Some? {
          ghost var disk :| IsOnlyDisk(k.block, name, disk) && r.value == InDev(disk);
          assert MountedOn(k, lines[i], name);
          assert IsRootDisk(k, name, disk);
        }
        return;
      }
    }
    r := None;
  }

  method PhysicalRootDisk(k: Kernel, device: string) returns (r: Option<string>, ghost name: string)
    ensures r.Some? ==>
      && NameByDeviceNumber(k.block, device) == Found(name)
      && exists disk :: IsOnlyDisk(k.block, name, disk) && r.value == InDev(disk)
    ensures r.None? ==> forall n, disk ::
      NameByDeviceNumber(k.block, device) == Found(n) ==> !IsOnlyDisk(k.block, n, disk)
  {
    hide NameByDeviceNumber, IsPhysical, Reaches, Resolvable, InDev;
    var found := NameByDeviceNumber(k.block, device);
    name := "";
    if !found.Found? {
      return None, name;
    }
    name := found.name;
    var related := Related(k.block, found.name);
    if related.None? {
      return None, name;
    }
    var candidates := PhysicalAmong(k.block, related.value);
    if |candidates| != 1 {
      forall disk | IsOnlyDisk(k.block, name, disk) ensures false {
        assert disk in related.value && disk in candidates;
        OnlyElement(candidates, disk);
      }
      return None, name;
    }
    assert candidates[0] in candidates;
    assert IsOnlyDisk(k.block, name, candidates[0]);
    r := Some(InDev(candidates[0]));
  }

  method PhysicalAmong(root: Node, names: seq<string>) returns (r: seq<string>)
    requires StrictlySorted(names)
    ensures StrictlySorted(r)
    ensures forall d :: d in r <==> d in names && IsPhysical(root, d)
  {
    r := [];
    for i := 0 to |names|
      invariant StrictlySorted(r)
      invariant forall d :: d in r <==> d in names[..i] && IsPhysical(root, d)
    {
      if IsPhysical(root, names[i]) {
        forall j | 0 <= j < |r| ensures Less(r[j], names[i]) {
          assert r[j] in r;
        }
        r := r + [names[i]];
      }
      assert names[..i + 1] == names[..i] + [names[i]];
    }
    assert names[..|names|] == names;
  }

  lemma OnlyElement(s: seq<string>, x: string)
    requires StrictlySorted(s) && x in s && forall y :: y in s ==> y == x
    ensures |s| == 1
  {
    CanonicalForm(s, [x]);
  }

  // ----- the target

  /** The first of two files that can be read and is not empty. */
  function ReadOptional(a: Option<string>, b: Option<string>): string {
    if a.Some? && a.value != "" then a.value
    else if b.Some? then b.value
    else ""
  }

  /** A serial number or identifier below "device" wins over one in the directory itself. */
  lemma OptionalTextComesFromFiles(node: Node, name: string, text: string)
    requires text != ""
    ensures ReadOptional(node.ReadBelow("device", name), node.Read(name)) == text <==>
      var below := "device" in node.sub && name in node.sub["device"].sub
                   && node.sub["device"].sub[name].text.Some? && node.sub["device"].sub[name].text.value != "";
      if below then node.sub["device"].sub[name].text == Some(text) else name in node.sub && node.sub[name].text == Some(text)
  {
  }

  const SECTOR_BYTES := 512

  function Sectors(node: Node): (r: Option<int>)
    ensures r.Some? ==> 0 <= r.value && r.value * SECTOR_BYTES <= MAX_INT64
  {
    var size := node.Read("size");
    if size.None? || ParseInt64(size.value).None? then None
    else
      var n := ParseInt64(size.value).value;
      if n < 0 || n > MAX_INT64 / SECTOR_BYTES then None else Some(n)
  }

  /** `t` is the identity of the canonical /dev/<name> target at `path`. */
  ghost predicate IsTarget(k: Kernel, path: string, t: TargetIdentity) {
    var node := BlockPath(k.block, t.kName);
    && t.canonicalPath == Clean(path) == InDev(t.kName)
    && t.kName == Base(Clean(path)) && t.kName != "." && t.kName != "/"
    && node.Some? && Sectors(node.value).Some?
    && t.sizeBytes == Sectors(node.value).value * SECTOR_BYTES
    && t.serial == ReadOptional(node.value.ReadBelow("device", "serial"), node.value.Read("serial"))
    && t.wwn == ReadOptional(node.value.ReadBelow("device", "wwid"), node.value.Read("wwid"))
    && t.isPartition == node.value.IsPartition()
    && IsRelated(k.block, t.kName, Some(t.descendants))
  }

  method Target(k: Kernel, path: string) returns (r: Option<TargetIdentity>)
    ensures r.Some? ==> IsTarget(k, path, r.value)
    ensures r.None? ==> forall t :: !IsTarget(k, path, t)
  {
    var cleaned := Clean(path);
    var name := Base(cleaned);
    if cleaned != InDev(name) || name == "." || name == "/" {
      return None;
    }
    var node := BlockPath(k.block, name);
    if node.None? {
      return None;
    }
    var sectors := Sectors(node.value);
    if sectors.None? {
      return None;
    }
    var descendants := Related(k.block, name);
    if descendants.None? {
      return None;
    }
    r := Some(TargetIdentity(
      cleaned,
      ReadOptional(node.value.ReadBelow("device", "serial"), node.value.Read("serial")),
      ReadOptional(node.value.ReadBelow("device", "wwid"), node.value.Read("wwid")),
      sectors.value * SECTOR_BYTES,
      name,
      node.value.IsPartition(),
      descendants.value));
  }

  /** Capacities are counted in sectors of 512 bytes. */
  lemma CapacityOfTarget(k: Kernel, path: string, t: TargetIdentity, node: Node, n: nat)
    requires IsTarget(k, path, t) && BlockPath(k.block, t.kName) == Some(node) && node.Read("size") == Some(Dec(n))
    ensures t.sizeBytes == 512 * n <= 9223372036854775807
  {
    SectorsRoundTrip(node, n);
    hide Dec, Clean, Base, InDev, IsRelated, BlockPath;
  }

  /** Major and minor number in the text of a "dev" file. */
  function ParseDeviceNumber(text: string): Option<(nat, nat)> {
    var parts := Split(text, ':');
    if |parts| < 2 then None
    else
      var major, minor := ParseUint32(parts[0]), ParseUint32(Join(parts[1..], ':'));
      if major.None? || minor.None? then None else Some((major.value, minor.value))
  }

  lemma DeviceNumberRoundTrip(major: nat, minor: nat)
    ensures ParseDeviceNumber(Dec(major) + ":" + Dec(minor)) ==
      if major <= 4294967295 && minor <= 4294967295 then Some((major, minor)) else None
  {
    DecRoundTrip(major);
    DecRoundTrip(minor);
    ParseUint32UndoesPrint(major);
    ParseUint32UndoesPrint(minor);
    hide Dec, DecValue, Split;
    SplitOfFirst(Dec(major), Dec(minor), ':');
    SplitOfPlain(Dec(minor), ':');
  }

  function DeviceNumber(root: Node, name: string): Option<(nat, nat)> {
    var node := BlockPath(root, name);
    if node.None? || node.value.Read("dev").None? then None
    else ParseDeviceNumber(node.value.Read("dev").value)
  }

  /** A printed sector count gives back the capacity, up to the largest that fits 64 bits. */
  lemma SectorsRoundTrip(node: Node, n: nat)
    requires node.Read("size") == Some(Dec(n))
    ensures Sectors(node) == if n <= 18014398509481983 then Some(n) else None
  {
    ParseInt64UndoesPrint(n);
    hide Dec, ParseInt64;
  }
}
