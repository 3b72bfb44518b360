/** Slack elimination: the result record and the one abstract operation that both platform
    implementations perform on the allocated bytes of the file. */
module Slack {
  import opened Bytes
  import opened Division

  datatype Mode = UnknownMode | Extent | Cluster

  datatype Status =
    | NotAttempted
    | Success
    | SuccessClusterMode
    | SuccessClusterFallback
    | Skipped(reason: SkipReason)
    | Failed(step: Step)

  datatype SkipReason =
    | EmptyFile | NoSlack | CowFilesystem | InlineInodeData   // both platforms; the last POSIX only
    | CompressedFile | SparseFile | EncryptedFile | ResidentMftData   // Win32 only

  datatype Step =
    | EmptyPattern | OpenFile | Fstat | IoctlError | NoExtents            // before the file is touched
    | GetAttributes | ClusterSizeUnknown | RetrievalPointers
    | Grow | SeekEof | WriteSlack | Flush | Restore                       // the run itself

  datatype SlackResult = SlackResult(eliminated: bool, status: Status, mode: Mode, unitSize: nat, bytesOverwritten: nat)

  const UNTOUCHED := SlackResult(false, NotAttempted, UnknownMode, 0, 0)

  predicate IsSuccess(s: Status) {
    s.Success? || s.SuccessClusterMode? || s.SuccessClusterFallback?
  }

  /** Statuses of a run that got as far as asking for the larger size. */
  predicate Ran(s: Status) {
    IsSuccess(s)
    || (s.Failed? && (s.step.Grow? || s.step.SeekEof? || s.step.WriteSlack? || s.step.Flush? || s.step.Restore?))
  }

  /** Where the last unit of a file ends, for a size that is not itself a multiple of the unit. */
  function Boundary(size: nat, unit: nat): (b: nat)
    requires unit > 0
    ensures size < b
  {
    size + (unit - PlaceOf(size, unit))
  }

  /** It is the first multiple of the unit beyond the size. */
  lemma BoundaryIsNextMultiple(size: nat, unit: nat)
    requires unit > 0
    ensures Boundary(size, unit) % unit == 0 && Boundary(size, unit) <= size + unit
  {
    var q := ChunkOf(size, unit);
    ChunkAndPlace(size, unit);
    NextMultiple(q, unit);
    MultipleOf(q + 1, unit);
  }

  /** The abstract operation: the tail of the last unit holds the pattern from its first byte,
      every other allocated byte is as before. */
  function Filled(before: seq<Byte>, size: nat, unit: nat, pattern: seq<Byte>): (after: seq<Byte>)
    requires size <= |before| && unit > 0 && |pattern| > 0
    ensures |after| == Max(|before|, Boundary(size, unit))
    ensures forall i :: 0 <= i < |after| ==>
              after[i] == if size <= i < Boundary(size, unit) then pattern[(i - size) % |pattern|] else before[i]
  {
    var end := Boundary(size, unit);
    before[..size] + Cycle(pattern, end - size) + if end < |before| then before[end..] else []
  }

  /** Laying the whole cycle over a grown file is the abstract operation. */
  lemma OverlayIsFilled(before: seq<Byte>, grown: seq<Byte>, size: nat, unit: nat, pattern: seq<Byte>)
    requires size <= |before| && unit > 0 && |pattern| > 0
    requires |grown| == Max(|before|, Boundary(size, unit))
    requires forall i :: 0 <= i < |before| && !(size <= i < Boundary(size, unit)) ==> grown[i] == before[i]
    ensures Overlay(grown, size, Cycle(pattern, Boundary(size, unit) - size)) == Filled(before, size, unit, pattern)
  {
  }

  /** The step at which a run failed; None for a success. */
  function FailedStep(s: Status): Option<Step> {
    if s.Failed? then Some(s.step) else None
  }

  /** What a run leaves behind, whichever platform performed it. `failed` is the step at which it
      gave up, if any; `shrinkFailed` says that the call meant to bring the size back failed. */
  ghost predicate TailLeft(failed: Option<Step>, before: seq<Byte>, after: seq<Byte>, media: seq<Byte>,
                           size: nat, length: nat, unit: nat, pattern: seq<Byte>, shrinkFailed: bool)
    requires size <= |before| && unit > 0 && |pattern| > 0
  {
    var end := Boundary(size, unit);
    // the payload never changes, and neither does anything past the unit boundary
    && |before| <= |after|
    && (forall i :: 0 <= i < |before| && !(size <= i < end) ==> after[i] == before[i])
    // the size is back exactly if the shrinking call did not itself fail
    && length == (if shrinkFailed then end else size)
    && (failed.None? || failed == Some(Grow) ==> !shrinkFailed)
    && (failed == Some(Restore) ==> shrinkFailed)
    && (failed == Some(Grow) ==> after == before)
    // once all bytes are written the tail is exactly the abstract operation, once synced on the medium too
    && (failed.None? || failed == Some(Flush) || failed == Some(Restore) ==>
          after == Filled(before, size, unit, pattern))
    && (failed.None? || failed == Some(Restore) ==>
          end <= |media| && |media| == |after| && media[..end] == after[..end])
  }

  /** What seek, write and sync leave of a grown file: the first `reached` bytes of the buffer lie
      over the tail, none of them if the seek failed, all of them once the write loop is through. */
  ghost predicate TailReached(failed: Option<Step>, reached: nat, grown: seq<Byte>, after: seq<Byte>,
                              size: nat, writeBuf: seq<Byte>)
  {
    && size + |writeBuf| <= |grown| && reached <= |writeBuf|
    && after == Overlay(grown, size, writeBuf[..reached])
    && (failed == Some(SeekEof) ==> reached == 0)
    && (failed == Some(WriteSlack) ==> reached < |writeBuf|)
    && (failed.None? || failed == Some(Flush) || failed == Some(Restore) ==> reached == |writeBuf|)
  }

  /** The same after the restoring step: the size and the medium. */
  ghost predicate TailRestored(failed: Option<Step>, media: seq<Byte>, after: seq<Byte>,
                               size: nat, end: nat, length: nat, shrinkFailed: bool)
  {
    && length == (if shrinkFailed then end else size)
    && (failed.None? ==> !shrinkFailed) && (failed == Some(Restore) ==> shrinkFailed)
    && (failed.None? || failed == Some(Restore) ==>
          end <= |media| && |media| == |after| && media[..end] == after[..end])
  }

  /** A file grown to the boundary, overwritten and restored. */
  lemma TailFromSteps(failed: Option<Step>, reached: nat, before: seq<Byte>, grown: seq<Byte>, after: seq<Byte>,
                      media: seq<Byte>, size: nat, length: nat, unit: nat, pattern: seq<Byte>, shrinkFailed: bool)
    requires size <= |before| && unit > 0 && |pattern| > 0 && failed != Some(Grow)
    requires |grown| == Max(|before|, Boundary(size, unit))
    requires forall i :: 0 <= i < |before| && !(size <= i < Boundary(size, unit)) ==> grown[i] == before[i]
    requires TailReached(failed, reached, grown, after, size, Cycle(pattern, Boundary(size, unit) - size))
    requires TailRestored(failed, media, after, size, Boundary(size, unit), length, shrinkFailed)
    ensures TailLeft(failed, before, after, media, size, length, unit, pattern, shrinkFailed)
  {
    var buffer := Cycle(pattern, Boundary(size, unit) - size);
    assert buffer[..|buffer|] == buffer;
    OverlayIsFilled(before, grown, size, unit, pattern);
  }

  /** Skips that still count as slack-free: there is no tail to overwrite. */
  predicate NothingToDo(s: Status) {
    s.Skipped? && (s.reason.EmptyFile? || s.reason.NoSlack? || s.reason.InlineInodeData? || s.reason.ResidentMftData?)
  }

  /** A skip that leaves an existing tail as it was. */
  predicate LeftInPlace(s: Status) {
    s.Skipped? && !NothingToDo(s)
  }

  /** The audit fields agree with the outcome: bytes are claimed exactly on success. */
  predicate Honest(r: SlackResult, size: nat) {
    && (r.eliminated <==> IsSuccess(r.status) || NothingToDo(r.status))
    && (r.bytesOverwritten != 0 <==> IsSuccess(r.status))
    && (IsSuccess(r.status) ==> r.unitSize > 0 && r.bytesOverwritten == Boundary(size, r.unitSize) - size)
  }
}
