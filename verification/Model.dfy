/** The values that pass between observation, policy and execution. */
module Model {

  datatype Mode = Rescue | Live | Unsupported(name: string)

  datatype TargetIdentity = TargetIdentity(
    canonicalPath: string,
    serial: string,
    wwn: string,
    sizeBytes: int,
    kName: string,
    isPartition: bool,
    descendants: seq<string>)

  datatype ImageIdentity = ImageIdentity(
    path: string,
    sha256: string,
    compressedBytes: int,
    uncompressedBytes: int)

  datatype HostObservation = HostObservation(
    euid: int,
    rootDisk: string,
    mountedDevices: map<string, bool>,
    swapDevices: map<string, bool>,
    sourceFilesystem: string,
    sourceBackingDevices: seq<string>,
    memoryAvailableBytes: int,
    sysRqTriggerAvailable: bool)

  datatype Inspection = Inspection(
    mode: Mode,
    target: TargetIdentity,
    image: ImageIdentity,
    confirmationToken: string)

  datatype GateCode =
    | InvalidTarget | InvalidDigest | InvalidImageSize | InvalidMode | NotRoot
    | TargetPartition | TargetTooSmall | TargetMounted | TargetSwap | SourceOnTarget
    | LiveTargetNotRoot | LiveSourceNotTmpfs | LiveMemory | LiveSysRq
}
