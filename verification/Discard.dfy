/** discard_file_blocks of both builds: a discard is reported only if the system accepted it. */
module Discard {
  import opened Bytes
  import opened Division
  import opened Store
  import Slack

  datatype DiscardStatus =
    | NotAttempted | SkippedEmptyFile | FailedOpenFile | FailedSetSparse | FailedPunch | Punched

  datatype DiscardResult = DiscardResult(invoked: bool, status: DiscardStatus)

  /** Nothing but write-back happened to the medium. */
  ghost predicate OnlyWrittenBack(cache: seq<Byte>, media: seq<Byte>, later: seq<Byte>) {
    |later| == |media| == |cache| && forall i :: 0 <= i < |later| ==> later[i] == media[i] || later[i] == cache[i]
  }

  ghost predicate Reports(d: DiscardResult, accepted: bool) {
    d.invoked == accepted == d.status.Punched?
  }

  /** Win32 rounds the range up to whole units. */
  function AlignedLength(size: nat, unit: nat): nat
    requires unit > 0
  {
    ChunkOf(size + unit - 1, unit) * unit
  }

  /** The rounding is exact: the least multiple of the unit that covers the size, so the hole ends
      where the slack tail ends. */
  lemma AlignedLengthIsBoundary(size: nat, unit: nat)
    requires unit > 0
    ensures AlignedLength(size, unit) == if PlaceOf(size, unit) == 0 then size else Slack.Boundary(size, unit)
  {
    var q, r := ChunkOf(size, unit), PlaceOf(size, unit);
    ChunkAndPlace(size, unit);
    if r == 0 {
      ChunkIndex(q, unit - 1, unit);
    } else {
      NextMultiple(q, unit);
      ChunkIndex(q + 1, r - 1, unit);
    }
  }

  /** What a discard step leaves. `held` is the medium when the discard was accepted, or as left if
      it was not; `synced` says that the step's own sync before the punch succeeded. */
  ghost predicate Leaves(d: DiscardResult, synced: bool, end: nat, length: nat, cache: seq<Byte>, media: seq<Byte>,
                         after: seq<Byte>, held: seq<Byte>)
  {
    && |after| == |cache|
    && (forall i :: 0 <= i < |after| ==> after[i] == if d.invoked && i < end then 0 else cache[i])
    && OnlyWrittenBack(cache, media, held)
    && (synced ==> length <= |cache| && held[..length] == cache[..length])
  }

  /** fallocate over the payload only. */
  method DiscardPosix(file: File, logicalSize: nat, opens: bool) returns (d: DiscardResult, ghost synced: bool)
    requires file.Valid()
    modifies file`cache, file`media, file`faults, file`punches, file`lastMedia
    ensures file.Valid()
    ensures old(file.punches) <= file.punches && Reports(d, file.punches > old(file.punches))
    ensures Leaves(d, synced, logicalSize, file.length, old(file.cache), old(file.media), file.cache,
                   if d.invoked then file.lastMedia else file.media)
    ensures d.status.SkippedEmptyFile? <==> logicalSize == 0
    ensures old(file.faults) <= file.faults
    ensures file.faults == old(file.faults) && logicalSize > 0 && opens ==> synced && d.invoked
    // byte by byte: the payload reads as zero exactly after an accepted punch
    ensures |file.cache| == |old(file.cache)| && forall i :: 0 <= i < |file.cache| ==>
              file.cache[i] == if d.invoked && i < logicalSize then 0 else old(file.cache)[i]
  {
    synced := false;
    if logicalSize == 0 { return DiscardResult(false, SkippedEmptyFile), synced; }
    if !opens { return DiscardResult(false, FailedOpenFile), synced; }
    var flushed := file.Sync();
    synced := flushed;
    var ok := file.PunchHole(logicalSize);
    if !ok { return DiscardResult(false, FailedPunch), synced; }
    return DiscardResult(true, Punched), synced;
  }

  /** Where the Win32 hole ends: whole clusters, 4096 bytes each if the size is unknown. */
  function ClusterEnd(size: nat, clusterSize: nat): nat {
    AlignedLength(size, if clusterSize > 0 then clusterSize else 4096)
  }

  /** FSCTL_SET_SPARSE, then FSCTL_SET_ZERO_DATA over whole units. */
  method DiscardWin32(file: File, logicalSize: nat, opens: bool, clusterSize: nat)
    returns (d: DiscardResult, ghost synced: bool)
    requires file.Valid()
    modifies file`cache, file`media, file`faults, file`punches, file`lastMedia
    ensures file.Valid()
    ensures old(file.punches) <= file.punches && Reports(d, file.punches > old(file.punches))
    ensures Leaves(d, synced, ClusterEnd(logicalSize, clusterSize), file.length, old(file.cache), old(file.media),
                   file.cache, if d.invoked then file.lastMedia else file.media)
    ensures d.status.SkippedEmptyFile? <==> logicalSize == 0
    ensures old(file.faults) <= file.faults
    ensures file.faults == old(file.faults) && logicalSize > 0 && opens ==> synced && d.invoked
    // byte by byte: after an accepted punch everything up to the next multiple of the cluster size,
    // or of 4096 if that is unknown, reads as zero
    ensures var unit := if clusterSize > 0 then clusterSize else 4096;
      var end := if logicalSize % unit == 0 then logicalSize else logicalSize + (unit - logicalSize % unit);
      |file.cache| == |old(file.cache)| && forall i :: 0 <= i < |file.cache| ==>
        file.cache[i] == if d.invoked && i < end then 0 else old(file.cache)[i]
  {
    AlignedLengthIsBoundary(logicalSize, if clusterSize > 0 then clusterSize else 4096);
    synced := false;
    if logicalSize == 0 { return DiscardResult(false, SkippedEmptyFile), synced; }
    if !opens { return DiscardResult(false, FailedOpenFile), synced; }
    var flushed := file.Sync();
    synced := flushed;
    var sparse := file.Attempt();
    if !sparse { return DiscardResult(false, FailedSetSparse), synced; }
    var unit := if clusterSize > 0 then clusterSize else 4096;
    var alignedLength := ((logicalSize + unit - 1) / unit) * unit;
    var ok := file.PunchHole(alignedLength);
    if !ok { return DiscardResult(false, FailedPunch), synced; }
    return DiscardResult(true, Punched), synced;
  }
}
