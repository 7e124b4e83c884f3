/**
 The fail-closed decision: an ordered list of gates, of which the first that fails is
 reported, and the loops that compute whether active devices meet the target.
 */
module Policy {
  import opened Basics
  import opened Text
  import opened Lexicographic
  import opened Paths
  import opened Model
  import opened Confirmation

  const MINIMUM_LIVE_AVAILABLE_BYTES := 512 * 1024 * 1024

  // ----- device sets

  ghost function BaseNames(values: seq<string>): set<string> {
    set v | v in values && v != "" :: Base(v)
  }

  ghost function TargetNames(t: TargetIdentity): set<string> {
    BaseNames(t.descendants) + BaseNames([t.kName, t.canonicalPath])
  }

  method AddBaseNames(names: set<string>, values: seq<string>) returns (r: set<string>)
    ensures r == names + BaseNames(values)
  {
    hide Base;
    r := names;
    for i := 0 to |values|
      invariant r == names + BaseNames(values[..i])
    {
      if values[i] != "" {
        r := r + {Base(values[i])};
      }
      assert values[..i + 1] == values[..i] + [values[i]];
    }
    assert values[..|values|] == values;
  }

  method DeviceNames(t: TargetIdentity) returns (r: set<string>)
    ensures r == TargetNames(t)
  {
    r := AddBaseNames({}, t.descendants);
    r := AddBaseNames(r, [t.kName, t.canonicalPath]);
  }

  ghost function Active(devices: map<string, bool>): set<string> {
    set d | d in devices && devices[d]
  }

  ghost predicate Meets(active: set<string>, candidates: set<string>) {
    exists d :: d in active && Base(d) in candidates
  }

  /** `d` is the lexicographically least active device whose base name is a candidate. */
  ghost predicate IsLeastHit(active: set<string>, candidates: set<string>, d: string) {
    && d in active && Base(d) in candidates
    && forall e :: e in active && Base(e) in candidates ==> e == d || Less(d, e)
  }

  /** Independent of map iteration order: the least hit, or none exactly when nothing meets. */
  method Intersects(devices: map<string, bool>, candidates: set<string>) returns (r: Option<string>)
    ensures r.Some? ==> IsLeastHit(Active(devices), candidates, r.value)
    ensures r.None? <==> !Meets(Active(devices), candidates)
  {
    hide Base, Less;
    var activeDevices := SortedKeys(set d | d in devices && devices[d]);
    assert Elements(activeDevices) == Active(devices);
    for i := 0 to |activeDevices|
      invariant forall j :: 0 <= j < i ==> Base(activeDevices[j]) !in candidates
    {
      if Base(activeDevices[i]) in candidates {
        assert activeDevices[i] in Active(devices);
        return Some(activeDevices[i]);
      }
    }
    r := None;
  }

  method MapFromSlice(values: seq<string>) returns (r: map<string, bool>)
    ensures Active(r) == Elements(values)
  {
    r := map[];
    for i := 0 to |values|
      invariant Active(r) == Elements(values[..i]) && forall d :: d in r ==> r[d]
    {
      r := r[values[i] := true];
      assert values[..i + 1] == values[..i] + [values[i]];
    }
    assert values[..|values|] == values;
  }

  // ----- gates

  datatype Gate = Gate(code: GateCode, holds: bool)

  ghost function CommonGates(mode: Mode, t: TargetIdentity, i: ImageIdentity, host: HostObservation): seq<Gate> {
    [ Gate(InvalidMode, mode == Rescue || mode == Live),
      Gate(NotRoot, host.euid == 0),
      Gate(TargetPartition, !t.isPartition),
      Gate(TargetTooSmall, t.sizeBytes >= i.uncompressedBytes),
      Gate(InvalidTarget, AcceptedTarget(t)),
      Gate(InvalidImageSize, i.uncompressedBytes > 0),
      Gate(InvalidDigest, ValidDigest(i.sha256)),
      Gate(SourceOnTarget, !Meets(Elements(host.sourceBackingDevices), TargetNames(t))) ]
  }

  ghost function ModeGates(mode: Mode, t: TargetIdentity, host: HostObservation): seq<Gate> {
    if mode == Rescue then
      [ Gate(TargetMounted, !Meets(Active(host.mountedDevices), TargetNames(t))),
        Gate(TargetSwap, !Meets(Active(host.swapDevices), TargetNames(t))) ]
    else
      [ Gate(LiveTargetNotRoot, Clean(host.rootDisk) == t.canonicalPath),
        Gate(LiveSourceNotTmpfs, host.sourceFilesystem == "tmpfs"),
        Gate(LiveMemory, host.memoryAvailableBytes >= MINIMUM_LIVE_AVAILABLE_BYTES),
        Gate(LiveSysRq, host.sysRqTriggerAvailable) ]
  }

  ghost function Gates(mode: Mode, t: TargetIdentity, i: ImageIdentity, host: HostObservation): seq<Gate> {
    CommonGates(mode, t, i, host) + ModeGates(mode, t, host)
  }

  ghost predicate AllHold(gates: seq<Gate>) {
    forall n :: 0 <= n < |gates| ==> gates[n].holds
  }

  /** Device `d` is one of the names the target goes by. */
  ghost predicate IsOfTarget(t: TargetIdentity, d: string) {
    exists v :: v in t.descendants + [t.kName, t.canonicalPath] && v != "" && Base(d) == Base(v)
  }

  lemma TargetNamesInFull(t: TargetIdentity, d: string)
    ensures Base(d) in TargetNames(t) <==> IsOfTarget(t, d)
  {
    hide Base;
    assert forall v :: v in t.descendants + [t.kName, t.canonicalPath] <==>
      v in t.descendants || v in [t.kName, t.canonicalPath];
  }

  lemma MeetsInFull(active: set<string>, t: TargetIdentity)
    ensures Meets(active, TargetNames(t)) <==> exists d :: d in active && IsOfTarget(t, d)
  {
    hide TargetNames, IsOfTarget, Base;
    forall d | d in active ensures Base(d) in TargetNames(t) <==> IsOfTarget(t, d) {
      TargetNamesInFull(t, d);
    }
  }

  /** The whole decision as one condition, with every bound written out. */
  lemma DecisionInFull(mode: Mode, t: TargetIdentity, i: ImageIdentity, host: HostObservation)
    ensures AllHold(Gates(mode, t, i, host)) <==>
      && (mode == Rescue || mode == Live) && host.euid == 0 && !t.isPartition && t.sizeBytes >= i.uncompressedBytes
      && Accepted(t, i)
      && (forall d :: d in host.sourceBackingDevices ==> !IsOfTarget(t, d))
      && (mode == Rescue ==> forall d :: d in host.mountedDevices && host.mountedDevices[d] ==> !IsOfTarget(t, d))
      && (mode == Rescue ==> forall d :: d in host.swapDevices && host.swapDevices[d] ==> !IsOfTarget(t, d))
      && (mode == Live ==> Clean(host.rootDisk) == t.canonicalPath && host.sourceFilesystem == "tmpfs")
      && (mode == Live ==> host.memoryAvailableBytes >= 536870912 && host.sysRqTriggerAvailable)
  {
    AllHoldInBoth(CommonGates(mode, t, i, host), ModeGates(mode, t, host));
    MeetsInFull(Elements(host.sourceBackingDevices), t);
    MeetsInFull(Active(host.mountedDevices), t);
    MeetsInFull(Active(host.swapDevices), t);
    CommonGatesInFull(mode, t, i, host);
    if mode == Rescue || mode == Live {
      ModeGatesInFull(mode, t, host);
    }
    hide AllHold, CommonGates, ModeGates, IsOfTarget, Meets, TargetNames, Clean, Accepted;
  }

  lemma CommonGatesInFull(mode: Mode, t: TargetIdentity, i: ImageIdentity, host: HostObservation)
    ensures AllHold(CommonGates(mode, t, i, host)) <==>
      && (mode == Rescue || mode == Live) && host.euid == 0 && !t.isPartition && t.sizeBytes >= i.uncompressedBytes
      && Accepted(t, i) && !Meets(Elements(host.sourceBackingDevices), TargetNames(t))
  {
    hide Meets, TargetNames, AcceptedTarget, ValidDigest;
    var gates := CommonGates(mode, t, i, host);
    assert AllHold(gates) ==> gates[0].holds && gates[1].holds && gates[2].holds && gates[3].holds
                              && gates[4].holds && gates[5].holds && gates[6].holds && gates[7].holds;
  }

  lemma ModeGatesInFull(mode: Mode, t: TargetIdentity, host: HostObservation)
    requires mode == Rescue || mode == Live
    ensures AllHold(ModeGates(mode, t, host)) <==>
      && (mode == Rescue ==> !Meets(Active(host.mountedDevices), TargetNames(t)))
      && (mode == Rescue ==> !Meets(Active(host.swapDevices), TargetNames(t)))
      && (mode == Live ==> Clean(host.rootDisk) == t.canonicalPath && host.sourceFilesystem == "tmpfs")
      && (mode == Live ==> host.memoryAvailableBytes >= 536870912 && host.sysRqTriggerAvailable)
  {
    hide Meets, TargetNames, Clean, Active;
    var gates := ModeGates(mode, t, host);
    if AllHold(gates) {
      assert gates[0].holds && gates[1].holds;
      assert mode == Live ==> gates[2].holds && gates[3].holds;
    }
  }

  ghost function Codes(gates: seq<Gate>): seq<GateCode> {
    seq(|gates|, n requires 0 <= n < |gates| => gates[n].code)
  }

  /** The order in which the gates are tried. */
  lemma GateOrder(mode: Mode, t: TargetIdentity, i: ImageIdentity, host: HostObservation)
    ensures Codes(Gates(mode, t, i, host)) ==
      [InvalidMode, NotRoot, TargetPartition, TargetTooSmall, InvalidTarget, InvalidImageSize, InvalidDigest, SourceOnTarget]
      + if mode == Rescue then [TargetMounted, TargetSwap] else [LiveTargetNotRoot, LiveSourceNotTmpfs, LiveMemory, LiveSysRq]
  {
    hide Meets, TargetNames, AcceptedTarget, ValidDigest, Clean;
  }

  /** `code` is the code of the first gate that does not hold. */
  ghost predicate IsFirstFailure(gates: seq<Gate>, code: GateCode) {
    exists n :: 0 <= n < |gates| && !gates[n].holds && gates[n].code == code
                && forall m :: 0 <= m < n ==> gates[m].holds
  }

  /** A refusal names its gate and, for an overlap, the least device that overlaps. */
  datatype Refusal = Refusal(code: GateCode, device: Option<string>)

  ghost predicate NamesLeastDevice(active: set<string>, t: TargetIdentity, device: Option<string>) {
    device.Some? && IsLeastHit(active, TargetNames(t), device.value)
  }

  /** Accepts exactly when every gate holds; otherwise reports the first that fails. */
  method Inspect(mode: Mode, t: TargetIdentity, i: ImageIdentity, host: HostObservation, sha256: string -> Sum)
    returns (r: Result<Inspection, Refusal>)
    ensures r.Ok? <==> AllHold(Gates(mode, t, i, host))
    ensures r.Ok? ==> ConfirmationToken(t, i, sha256) == Ok(r.value.confirmationToken)
                      && r.value == Inspection(mode, t, i, r.value.confirmationToken)
    ensures r.Err? ==> IsFirstFailure(Gates(mode, t, i, host), r.error.code)
    ensures r.Err? && r.error.code == SourceOnTarget ==>
      NamesLeastDevice(Elements(host.sourceBackingDevices), t, r.error.device)
    ensures r.Err? && r.error.code == TargetMounted ==> NamesLeastDevice(Active(host.mountedDevices), t, r.error.device)
    ensures r.Err? && r.error.code == TargetSwap ==> NamesLeastDevice(Active(host.swapDevices), t, r.error.device)
    ensures r.Err? && r.error.code !in {SourceOnTarget, TargetMounted, TargetSwap} ==> r.error.device.None?
  {
    hide Meets, TargetNames, AcceptedTarget, ValidDigest, IsLeastHit, ConfirmationToken, ModeGates;
    ghost var gates := Gates(mode, t, i, host);
    if mode != Rescue && mode != Live {
      Fails(gates, 0);
      return Err(Refusal(InvalidMode, None));
    }
    if host.euid != 0 {
      Fails(gates, 1);
      return Err(Refusal(NotRoot, None));
    }
    if t.isPartition {
      Fails(gates, 2);
      return Err(Refusal(TargetPartition, None));
    }
    if t.sizeBytes < i.uncompressedBytes {
      Fails(gates, 3);
      return Err(Refusal(TargetTooSmall, None));
    }
    var token := ConfirmationToken(t, i, sha256);
    if token.Err? {
      Fails(gates, if token.error == InvalidTarget then 4 else if token.error == InvalidImageSize then 5 else 6);
      return Err(Refusal(token.error, None));
    }
    var targetDevices := DeviceNames(t);
    var sources := MapFromSlice(host.sourceBackingDevices);
    var source := Intersects(sources, targetDevices);
    if source.Some? {
      Fails(gates, 7);
      return Err(Refusal(SourceOnTarget, source));
    }
    assert AllHold(CommonGates(mode, t, i, host));
    var refusal := InspectMode(mode, t, host, targetDevices);
    if refusal.Some? {
      LaterFailure(CommonGates(mode, t, i, host), ModeGates(mode, t, host), refusal.value.code);
      return Err(refusal.value);
    }
    r := Ok(Inspection(mode, t, i, token.value));
  }

  lemma Fails(gates: seq<Gate>, n: nat)
    requires n < |gates| && !gates[n].holds && forall m :: 0 <= m < n ==> gates[m].holds
    ensures IsFirstFailure(gates, gates[n].code) && !AllHold(gates)
  {
  }

  lemma LaterFailure(common: seq<Gate>, later: seq<Gate>, code: GateCode)
    requires AllHold(common) && IsFirstFailure(later, code)
    ensures IsFirstFailure(common + later, code) && !AllHold(common + later)
  {
    var n :| 0 <= n < |later| && !later[n].holds && later[n].code == code
             && forall m :: 0 <= m < n ==> later[m].holds;
    var gates := common + later;
    assert gates[|common| + n] == later[n];
    Fails(gates, |common| + n);
  }

  method InspectMode(mode: Mode, t: TargetIdentity, host: HostObservation, targetDevices: set<string>)
    returns (r: Option<Refusal>)
    requires targetDevices == TargetNames(t)
    ensures r.None? <==> AllHold(ModeGates(mode, t, host))
    ensures r.Some? ==> IsFirstFailure(ModeGates(mode, t, host), r.value.code) && r.value.code != SourceOnTarget
    ensures r.Some? && r.value.code == TargetMounted ==> NamesLeastDevice(Active(host.mountedDevices), t, r.value.device)
    ensures r.Some? && r.value.code == TargetSwap ==> NamesLeastDevice(Active(host.swapDevices), t, r.value.device)
    ensures r.Some? && r.value.code !in {TargetMounted, TargetSwap} ==> r.value.device.None?
  {
    hide Meets, TargetNames, IsLeastHit, Clean;
    ghost var gates := ModeGates(mode, t, host);
    if mode == Rescue {
      var mounted := Intersects(host.mountedDevices, targetDevices);
      if mounted.Some? {
        Fails(gates, 0);
        return Some(Refusal(TargetMounted, mounted));
      }
      var swap := Intersects(host.swapDevices, targetDevices);
      if swap.Some? {
        Fails(gates, 1);
        return Some(Refusal(TargetSwap, swap));
      }
      return None;
    }
    if Clean(host.rootDisk) != t.canonicalPath {
      Fails(gates, 0);
      return Some(Refusal(LiveTargetNotRoot, None));
    }
    if host.sourceFilesystem != "tmpfs" {
      Fails(gates, 1);
      return Some(Refusal(LiveSourceNotTmpfs, None));
    }
    if host.memoryAvailableBytes < MINIMUM_LIVE_AVAILABLE_BYTES {
      Fails(gates, 2);
      return Some(Refusal(LiveMemory, None));
    }
    if !host.sysRqTriggerAvailable {
      Fails(gates, 3);
      return Some(Refusal(LiveSysRq, None));
    }
    r := None;
  }

  // ----- fail-closed monotonicity

  /** `host'` observes at least the devices in use that `host` does. */
  ghost predicate SeesMore(host: HostObservation, host': HostObservation) {
    && Active(host.mountedDevices) <= Active(host'.mountedDevices)
    && Active(host.swapDevices) <= Active(host'.swapDevices)
    && Elements(host.sourceBackingDevices) <= Elements(host'.sourceBackingDevices)
    && host' == host.(mountedDevices := host'.mountedDevices, swapDevices := host'.swapDevices,
                      sourceBackingDevices := host'.sourceBackingDevices)
  }

  lemma MeetsIsMonotone(a: set<string>, b: set<string>, c: set<string>, d: set<string>)
    requires a <= b && c <= d && Meets(a, c)
    ensures Meets(b, d)
  {
    hide Base;
  }

  lemma MoreNames(t: TargetIdentity, t': TargetIdentity)
    requires Elements(t.descendants) <= Elements(t'.descendants)
    requires t' == t.(descendants := t'.descendants)
    ensures TargetNames(t) <= TargetNames(t')
  {
    hide Base;
    assert forall v :: v in t.descendants ==> v in Elements(t.descendants);
  }

  lemma MoreMeets(a: set<string>, b: set<string>, t: TargetIdentity, t': TargetIdentity)
    requires a <= b && TargetNames(t) <= TargetNames(t')
    ensures Meets(a, TargetNames(t)) ==> Meets(b, TargetNames(t'))
  {
    hide TargetNames, Meets;
    if Meets(a, TargetNames(t)) {
      MeetsIsMonotone(a, b, TargetNames(t), TargetNames(t'));
    }
  }

  lemma CommonGatesAreMonotone(
    mode: Mode, t: TargetIdentity, t': TargetIdentity, i: ImageIdentity, host: HostObservation, host': HostObservation)
    requires SeesMore(host, host') && TargetNames(t) <= TargetNames(t') && t' == t.(descendants := t'.descendants)
    requires AllHold(CommonGates(mode, t', i, host'))
    ensures AllHold(CommonGates(mode, t, i, host))
  {
    MoreMeets(Elements(host.sourceBackingDevices), Elements(host'.sourceBackingDevices), t, t');
    hide Meets, TargetNames, ValidDigest, Clean, Base;
    var gates, gates' := CommonGates(mode, t, i, host), CommonGates(mode, t', i, host');
    forall n | 0 <= n < |gates| ensures gates[n].holds {
      assert gates'[n].holds;
    }
  }

  lemma ModeGatesAreMonotone(
    mode: Mode, t: TargetIdentity, t': TargetIdentity, host: HostObservation, host': HostObservation)
    requires SeesMore(host, host') && TargetNames(t) <= TargetNames(t') && t' == t.(descendants := t'.descendants)
    requires AllHold(ModeGates(mode, t', host'))
    ensures AllHold(ModeGates(mode, t, host))
  {
    MoreMeets(Active(host.mountedDevices), Active(host'.mountedDevices), t, t');
    MoreMeets(Active(host.swapDevices), Active(host'.swapDevices), t, t');
    hide Meets, TargetNames, Clean, Active;
    var gates, gates' := ModeGates(mode, t, host), ModeGates(mode, t', host');
    forall n | 0 <= n < |gates| ensures gates[n].holds {
      assert gates'[n].holds;
    }
  }

  lemma AllHoldInBoth(a: seq<Gate>, b: seq<Gate>)
    ensures AllHold(a + b) <==> AllHold(a) && AllHold(b)
  {
    if AllHold(a + b) {
      assert forall n :: 0 <= n < |a| ==> a[n] == (a + b)[n];
      assert forall n :: 0 <= n < |b| ==> b[n] == (a + b)[|a| + n];
    }
  }

  /** More devices in use or more descendants never turn a refusal into an acceptance. */
  lemma InspectionIsMonotone(
    mode: Mode, t: TargetIdentity, t': TargetIdentity, i: ImageIdentity, host: HostObservation, host': HostObservation)
    requires SeesMore(host, host')
    requires Elements(t.descendants) <= Elements(t'.descendants) && t' == t.(descendants := t'.descendants)
    requires AllHold(Gates(mode, t', i, host'))
    ensures AllHold(Gates(mode, t, i, host))
  {
    hide AllHold, CommonGates, ModeGates, TargetNames, SeesMore;
    MoreNames(t, t');
    AllHoldInBoth(CommonGates(mode, t', i, host'), ModeGates(mode, t', host'));
    CommonGatesAreMonotone(mode, t, t', i, host, host');
    ModeGatesAreMonotone(mode, t, t', host, host');
    AllHoldInBoth(CommonGates(mode, t, i, host), ModeGates(mode, t, host));
  }
}
