/** eliminate_slack_space of the POSIX build. */
module SlackPosix {
  import opened Bytes
  import opened Division
  import opened Slack
  import opened Store

  const MSDOS_SUPER_MAGIC: nat := 0x00004d44
  const EXFAT_SUPER_MAGIC: nat := 0x2011BAB0
  const NTFS_SB_MAGIC: nat := 0x5346544e
  const BTRFS_SUPER_MAGIC: nat := 0x9123683E

  datatype Statfs = Statfs(magic: nat, blockSize: int)

  /** The answer to FS_IOC_FIEMAP. */
  datatype ExtentMap = Unsupported | IoctlFailed | Extents(mapped: nat, lastInline: bool)

  /** What the kernel answers about the file before it is touched. */
  datatype Probe = Probe(opens: bool, statOk: bool, blockSize: int, statfs: Option<Statfs>, extents: ExtentMap)
  {
    predicate IsClusterAllocated() {
      statfs.Some? && statfs.value.magic in {MSDOS_SUPER_MAGIC, EXFAT_SUPER_MAGIC, NTFS_SB_MAGIC}
    }

    predicate IsCow() {
      statfs.Some? && statfs.value.magic == BTRFS_SUPER_MAGIC
    }

    /** The system answers that the tail, if there is one, must be left in place. */
    predicate Declines() {
      opens && statOk && IsCow()
    }

    /** Cluster size from statfs on cluster filesystems, else the block size, else 4096. */
    function UnitSize(): (unit: nat)
      ensures unit > 0
    {
      if IsClusterAllocated() && statfs.value.blockSize > 0 then statfs.value.blockSize
      else if blockSize > 0 then blockSize
      else 4096
    }

    function RunMode(): Mode {
      if IsClusterAllocated() || extents.Unsupported? then Cluster else Extent
    }

    function SuccessStatus(): Status {
      if IsClusterAllocated() then SuccessClusterMode
      else if extents.Unsupported? then SuccessClusterFallback
      else Success
    }
  }

  /** Why the file is left alone, if it is: the first of these obstacles decides. */
  function Obstacle(probe: Probe, size: nat, pattern: seq<Byte>): Option<SlackResult> {
    var unit, mode := probe.UnitSize(), if probe.IsClusterAllocated() then Cluster else Extent;
    if size == 0 then Some(SlackResult(true, Skipped(EmptyFile), UnknownMode, 0, 0))
    else if pattern == [] then Some(SlackResult(false, Failed(EmptyPattern), UnknownMode, 0, 0))
    else if !probe.opens then Some(SlackResult(false, Failed(OpenFile), UnknownMode, 0, 0))
    else if !probe.statOk then Some(SlackResult(false, Failed(Fstat), UnknownMode, 0, 0))
    else if probe.IsCow() then Some(SlackResult(false, Skipped(CowFilesystem), UnknownMode, 0, 0))
    else if PlaceOf(size, unit) == 0 then Some(SlackResult(true, Skipped(NoSlack), mode, unit, 0))
    else if probe.IsClusterAllocated() || probe.extents.Unsupported? then None
    else if probe.extents.IoctlFailed? then Some(SlackResult(false, Failed(IoctlError), mode, unit, 0))
    else if probe.extents.mapped == 0 then Some(SlackResult(false, Failed(NoExtents), mode, unit, 0))
    else if probe.extents.lastInline then Some(SlackResult(true, Skipped(InlineInodeData), mode, unit, 0))
    else None
  }

  /** The tail is grown only where growing reuses the file's own last unit and there is slack. */
  lemma RunsOnlyWhereSafe(probe: Probe, size: nat, pattern: seq<Byte>)
    ensures Obstacle(probe, size, pattern).None? <==>
            && PlaceOf(size, probe.UnitSize()) != 0 && pattern != [] && probe.opens && probe.statOk && !probe.IsCow()
            && (probe.IsClusterAllocated() || probe.extents.Unsupported?
                || (probe.extents.Extents? && probe.extents.mapped > 0 && !probe.extents.lastInline))
  {
    if size == 0 { ZeroHasNoRemainder(probe.UnitSize()); }
  }

  lemma ZeroHasNoRemainder(unit: nat)
    requires unit > 0
    ensures PlaceOf(0, unit) == 0
  {
  }

  /** A file left alone is reported as such: nothing overwritten, and eliminated only where there
      is no tail to overwrite. */
  lemma ObstaclesAreHonest(probe: Probe, size: nat, pattern: seq<Byte>)
    requires Obstacle(probe, size, pattern).Some?
    ensures var r := Obstacle(probe, size, pattern).value; !Ran(r.status) && Honest(r, size)
  {
    var r := Obstacle(probe, size, pattern).value;
    assert !IsSuccess(r.status) && r.bytesOverwritten == 0;
  }

  /** The tail is left in place by a skip exactly when a non-empty file meets such an answer. */
  lemma DeclinedIff(probe: Probe, size: nat, pattern: seq<Byte>)
    requires pattern != []
    ensures Obstacle(probe, size, pattern).Some? && LeftInPlace(Obstacle(probe, size, pattern).value.status)
       <==> size > 0 && probe.Declines()
  {
  }

  /** The unit that the raw answers call for. */
  lemma UnitFromAnswers(probe: Probe)
    ensures var cluster := probe.statfs.Some? && probe.statfs.value.magic in {0x4d44, 0x2011BAB0, 0x5346544e};
      && (cluster && probe.statfs.value.blockSize > 0 ==> probe.UnitSize() == probe.statfs.value.blockSize)
      && (!(cluster && probe.statfs.value.blockSize > 0) && probe.blockSize > 0 ==> probe.UnitSize() == probe.blockSize)
      && (!(cluster && probe.statfs.value.blockSize > 0) && probe.blockSize <= 0 ==> probe.UnitSize() == 4096)
      && (cluster <==> probe.IsClusterAllocated())
  {
  }

  /** The raw answers that stop the run, each with its own result and no other. */
  lemma SkipsFromAnswers(probe: Probe, size: nat, pattern: seq<Byte>)
    ensures var o, unit := Obstacle(probe, size, pattern), probe.UnitSize();
      var usable := size > 0 && pattern != [] && probe.opens && probe.statOk;
      var btrfs := probe.statfs.Some? && probe.statfs.value.magic == 0x9123683E;
      var extents := probe.extents.Extents? && !probe.IsClusterAllocated();
      && ((o.Some? && o.value.status == Skipped(EmptyFile)) <==> size == 0)
      && ((o.Some? && o.value.status == Skipped(CowFilesystem)) <==> usable && btrfs)
      && ((o.Some? && o.value.status == Skipped(NoSlack)) <==> usable && !btrfs && size % unit == 0)
      && ((o.Some? && o.value.status == Skipped(InlineInodeData)) <==>
            usable && !btrfs && size % unit != 0 && extents && probe.extents.mapped > 0 && probe.extents.lastInline)
      && (o.Some? && o.value.eliminated ==>
            o.value.status in {Skipped(EmptyFile), Skipped(NoSlack), Skipped(InlineInodeData)})
      && (o.Some? && o.value.status.Skipped? && !o.value.eliminated ==> o.value.status == Skipped(CowFilesystem))
      && (o.None? <==> usable && !btrfs && size % unit != 0
                       && (extents ==> probe.extents.mapped > 0 && !probe.extents.lastInline)
                       && !(probe.extents.IoctlFailed? && !probe.IsClusterAllocated()))
  {
  }

  /** The write loop: any positive amount per call, EINTR retried. It ends because each round
      leaves fewer bytes, or the same bytes and fewer interrupts to come. */
  method WriteSlackBytes(file: File, writeBuf: seq<Byte>, start: nat) returns (ok: bool, ghost reached: nat)
    requires file.Valid() && file.pos == start && start + |writeBuf| <= file.length
    modifies file`cache, file`media, file`pos, file`interrupts, file`faults
    ensures file.Valid() && reached <= |writeBuf| && (ok <==> reached == |writeBuf|)
    ensures file.cache == Overlay(old(file.cache), start, writeBuf[..reached])
    ensures old(file.OnMedia(start)) ==> file.OnMedia(start)
    ensures file.faults == old(file.faults) + if ok then 0 else 1
  {
    var totalWritten := 0;
    ghost var grown := file.cache;
    assert Overlay(grown, start, writeBuf[..0]) == grown;
    while totalWritten < |writeBuf|
      invariant file.Valid() && totalWritten <= |writeBuf| && file.pos == start + totalWritten
      invariant file.cache == Overlay(grown, start, writeBuf[..totalWritten])
      invariant old(file.OnMedia(start)) ==> file.OnMedia(start)
      invariant file.faults == old(file.faults)
      decreases |writeBuf| - totalWritten, file.interrupts
    {
      var w := file.Write(writeBuf[totalWritten..]);
      match w {
        case Wrote(n) =>
          assert writeBuf[totalWritten..][..n] == writeBuf[totalWritten..totalWritten + n];
          OverlaySteps(grown, start, writeBuf, totalWritten, n);
          totalWritten := totalWritten + n;
        case Interrupted =>
        case Refused =>
          return false, totalWritten;
      }
    }
    return true, totalWritten;
  }

  /** Everything before the first change to the file: identify the filesystem, pick the unit and
      the mode, and consult the extent map. */
  method ChooseStrategy(probe: Probe, logicalSize: nat, pattern: seq<Byte>) returns (r: SlackResult, proceed: bool)
    ensures proceed <==> Obstacle(probe, logicalSize, pattern).None?
    ensures !proceed ==> Obstacle(probe, logicalSize, pattern) == Some(r)
    ensures proceed ==> r == SlackResult(false, NotAttempted, probe.RunMode(), probe.UnitSize(), 0)
  {
    r, proceed := UNTOUCHED, false;
    if logicalSize == 0 {
      r := r.(status := Skipped(EmptyFile), eliminated := true);
      return;
    }
    if pattern == [] {
      r := r.(status := Failed(EmptyPattern));
      return;
    }
    if !probe.opens {
      r := r.(status := Failed(OpenFile));
      return;
    }

    // 1. filesystem and strategy
    if !probe.statOk {
      r := r.(status := Failed(Fstat));
      return;
    }
    var haveStatfs := probe.statfs.Some?;
    var clusterFs := haveStatfs && probe.IsClusterAllocated();
    if haveStatfs && probe.IsCow() {
      r := r.(mode := UnknownMode, status := Skipped(CowFilesystem));
      return;
    }
    var unitSize: nat := 0;
    if clusterFs && haveStatfs && probe.statfs.value.blockSize > 0 {
      unitSize := probe.statfs.value.blockSize;
    } else if probe.blockSize > 0 {
      unitSize := probe.blockSize;
    } else {
      unitSize := 4096;
    }
    assert unitSize == probe.UnitSize();
    r := r.(unitSize := unitSize, mode := if clusterFs then Cluster else Extent);
    if PlaceOf(logicalSize, unitSize) == 0 {
      r := r.(status := Skipped(NoSlack), eliminated := true);
      return;
    }

    // 2. extent map
    if !clusterFs {
      match probe.extents {
        case Unsupported =>
          r := r.(mode := Cluster);
        case IoctlFailed =>
          r := r.(status := Failed(IoctlError));
          return;
        case Extents(mapped, lastInline) =>
          if mapped == 0 {
            r := r.(status := Failed(NoExtents));
            return;
          }
          if lastInline {
            r := r.(status := Skipped(InlineInodeData), eliminated := true);
            return;
          }
      }
    }
    proceed := true;
  }

  method EliminateSlackSpace(file: File, probe: Probe, logicalSize: nat, pattern: seq<Byte>)
    returns (r: SlackResult)
    requires file.Valid() && file.length == logicalSize
    modifies file`cache, file`media, file`length, file`pos, file`interrupts, file`faults, file`failedShrinks
    ensures file.Valid()
    // an obstacle decides the whole result and the file is not touched
    ensures Obstacle(probe, logicalSize, pattern).Some? ==>
              && r == Obstacle(probe, logicalSize, pattern).value
              && file.cache == old(file.cache) && file.media == old(file.media) && file.length == logicalSize
    // otherwise the run happens, under any faults
    ensures Obstacle(probe, logicalSize, pattern).None? ==>
              && Ran(r.status) && (IsSuccess(r.status) ==> r.status == probe.SuccessStatus())
              && r.unitSize == probe.UnitSize() && r.mode == probe.RunMode()
              && TailLeft(FailedStep(r.status), old(file.cache), file.cache, file.media, logicalSize, file.length,
                          probe.UnitSize(), pattern, file.failedShrinks > old(file.failedShrinks))
    ensures old(file.OnMedia(logicalSize)) ==> file.OnMedia(logicalSize)
    ensures Honest(r, logicalSize)
    ensures Obstacle(probe, logicalSize, pattern).None? && file.faults == old(file.faults) ==> IsSuccess(r.status)
    ensures old(file.faults) <= file.faults
    // in the raw answers: the unit, and what a success and every skip mean with it
    ensures var cluster := probe.statfs.Some? && probe.statfs.value.magic in {0x4d44, 0x2011BAB0, 0x5346544e};
      var unit: nat := if cluster && probe.statfs.value.blockSize > 0 then probe.statfs.value.blockSize
                       else if probe.blockSize > 0 then probe.blockSize else 4096;
      && (IsSuccess(r.status) ==>
            && r.unitSize == unit && r.bytesOverwritten == unit - logicalSize % unit
            && logicalSize + (unit - logicalSize % unit) <= |file.cache|
            && forall i :: logicalSize <= i < logicalSize + (unit - logicalSize % unit) ==>
                 file.cache[i] == pattern[(i - logicalSize) % |pattern|])
      && (r.status == Skipped(NoSlack) ==> logicalSize > 0 && logicalSize % unit == 0)
      && (r.eliminated && logicalSize > 0 && !IsSuccess(r.status) ==>
            logicalSize % unit == 0 || (!cluster && probe.extents.Extents? && probe.extents.lastInline))
      && (r.status.Skipped? && !r.eliminated ==> probe.statfs.Some? && probe.statfs.value.magic == 0x9123683E)
      && (IsSuccess(r.status) ==>
            && (r.status.SuccessClusterMode? <==> cluster)
            && (r.status.SuccessClusterFallback? <==> !cluster && probe.extents.Unsupported?)
            && (r.mode.Extent? <==> !cluster && probe.extents.Extents?))
    // the length and the bytes outside the tail, whatever failed
    ensures file.length == logicalSize || (!r.eliminated && file.failedShrinks > old(file.failedShrinks))
    ensures logicalSize <= |old(file.cache)| <= |file.cache|
    ensures file.cache[..logicalSize] == old(file.cache)[..logicalSize]
  {
    UnitFromAnswers(probe);
    SkipsFromAnswers(probe, logicalSize, pattern);
    var proceed: bool;
    r, proceed := ChooseStrategy(probe, logicalSize, pattern);
    if !proceed {
      ObstaclesAreHonest(probe, logicalSize, pattern);
      return;
    }
    RunsOnlyWhereSafe(probe, logicalSize, pattern);
    var usedClusterFallback := r.mode == Cluster && !probe.IsClusterAllocated();
    file.pos := 0;
    var step := FillTail(file, logicalSize, r.unitSize, pattern);
    if step.Some? {
      r := r.(status := Failed(step.value));
      return;
    }
    r := r.(bytesOverwritten := r.unitSize - PlaceOf(logicalSize, r.unitSize), eliminated := true);
    if usedClusterFallback {
      r := r.(status := SuccessClusterFallback);
    } else if r.mode == Cluster {
      r := r.(status := SuccessClusterMode);
    } else {
      r := r.(status := Success);
    }
  }

  /** Steps 4 to 6: seek, write and sync the tail of the grown file; a failing step tries to bring
      the size back and is returned. */
  method OverwriteTail(file: File, logicalSize: nat, writeBuf: seq<Byte>)
    returns (failed: Option<Step>, ghost reached: nat)
    requires file.Valid() && |writeBuf| > 0 && file.length == logicalSize + |writeBuf|
    modifies file`cache, file`media, file`length, file`pos, file`interrupts, file`faults, file`failedShrinks
    ensures file.Valid()
    ensures failed.None? || failed == Some(SeekEof) || failed == Some(WriteSlack) || failed == Some(Flush)
    ensures TailReached(failed, reached, old(file.cache), file.cache, logicalSize, writeBuf)
    ensures failed.None? ==> file.OnMedia(file.length) && file.failedShrinks == old(file.failedShrinks)
    ensures file.failedShrinks >= old(file.failedShrinks)
    ensures file.length == if failed.None? || file.failedShrinks > old(file.failedShrinks) then old(file.length)
                           else logicalSize
    ensures old(file.OnMedia(logicalSize)) ==> file.OnMedia(logicalSize)
    ensures failed.None? ==> file.faults == old(file.faults)
    ensures failed.Some? ==> file.faults > old(file.faults)
  {
    reached := 0;
    assert Overlay(file.cache, logicalSize, writeBuf[..0]) == file.cache;
    var ok := file.Seek(logicalSize);
    if !ok {
      var _ := file.Truncate(logicalSize);
      return Some(SeekEof), reached;
    }
    ok, reached := WriteSlackBytes(file, writeBuf, logicalSize);
    if !ok {
      var _ := file.Truncate(logicalSize);
      return Some(WriteSlack), reached;
    }
    ok := file.Sync();
    if !ok {
      var _ := file.Truncate(logicalSize);
      return Some(Flush), reached;
    }
    return None, reached;
  }

  /** Steps 4 to 7: the same, and then the original size again. */
  method OverwriteAndRestore(file: File, logicalSize: nat, writeBuf: seq<Byte>)
    returns (failed: Option<Step>, ghost reached: nat)
    requires file.Valid() && |writeBuf| > 0 && file.length == logicalSize + |writeBuf|
    modifies file`cache, file`media, file`length, file`pos, file`interrupts, file`faults, file`failedShrinks
    ensures file.Valid()
    ensures failed.Some? ==> failed != Some(Grow) && Ran(Failed(failed.value))
    ensures TailReached(failed, reached, old(file.cache), file.cache, logicalSize, writeBuf)
    ensures TailRestored(failed, file.media, file.cache, logicalSize, old(file.length), file.length,
                         file.failedShrinks > old(file.failedShrinks))
    ensures file.failedShrinks >= old(file.failedShrinks)
    ensures old(file.OnMedia(logicalSize)) ==> file.OnMedia(logicalSize)
    ensures failed.Some? ==> file.faults > old(file.faults)
    ensures old(file.faults) <= file.faults
  {
    failed, reached := OverwriteTail(file, logicalSize, writeBuf);
    if failed.Some? { return; }
    var ok := file.Truncate(logicalSize);
    if !ok { return Some(Restore), reached; }
    var _ := file.Sync();
  }

  /** Steps 3 to 7: grow, overwrite, restore. Returns the step that failed, if one did. */
  method FillTail(file: File, logicalSize: nat, unitSize: nat, pattern: seq<Byte>) returns (failed: Option<Step>)
    requires file.Valid() && file.length == logicalSize
    requires unitSize > 0 && PlaceOf(logicalSize, unitSize) != 0 && pattern != []
    modifies file`cache, file`media, file`length, file`pos, file`interrupts, file`faults, file`failedShrinks
    ensures file.Valid()
    ensures failed.Some? ==> Ran(Failed(failed.value))
    ensures TailLeft(failed, old(file.cache), file.cache, file.media, logicalSize, file.length,
                     unitSize, pattern, file.failedShrinks > old(file.failedShrinks))
    ensures old(file.OnMedia(logicalSize)) ==> file.OnMedia(logicalSize)
    ensures file.faults == old(file.faults) ==> failed.None?
    ensures old(file.faults) <= file.faults
  {
    var targetSize := logicalSize + (unitSize - PlaceOf(logicalSize, unitSize));
    var bytesToOverwrite := targetSize - logicalSize;
    var ok := file.Truncate(targetSize);
    if !ok { return Some(Grow); }
    ghost var grown := file.cache;
    ghost var reached;
    failed, reached := OverwriteAndRestore(file, logicalSize, Cycle(pattern, bytesToOverwrite));
    TailFromSteps(failed, reached, old(file.cache), grown, file.cache, file.media, logicalSize, file.length,
                  unitSize, pattern, file.failedShrinks > old(file.failedShrinks));
  }
}
