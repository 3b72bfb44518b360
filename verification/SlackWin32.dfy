/** eliminate_slack_space of the Win32 build, and its agreement with the POSIX one. */
module SlackWin32 {
  import opened Bytes
  import opened Division
  import opened Slack
  import opened Store
  import SlackPosix

  /** The most that one WriteFile call is asked to take: 1 MiB. */
  const WRITE_CAP: nat := 0x10_0000

  datatype Attributes = Attributes(compressed: bool, sparse: bool, encrypted: bool)

  datatype Residency = HasExtents | ResidentOrUnsupported | ErrorOther

  /** What the system answers about the file before it is touched. A cluster size of 0 stands for
      a failed query. */
  datatype Probe = Probe(fsName: string, attributes: Option<Attributes>, clusterSize: nat, opens: bool,
                         residency: Residency)
  {
    predicate IsCow() {
      fsName == "ReFS"
    }

    /** The system answers that the tail, if there is one, must be left in place. */
    predicate Declines() {
      attributes.Some?
      && (attributes.value.compressed || attributes.value.sparse || attributes.value.encrypted || IsCow())
    }
  }

  /** Why the file is left alone, if it is: the first of these obstacles decides. */
  function Obstacle(probe: Probe, size: nat, pattern: seq<Byte>): Option<SlackResult> {
    var unit := probe.clusterSize;
    if size == 0 then Some(SlackResult(true, Skipped(EmptyFile), Cluster, 0, 0))
    else if pattern == [] then Some(SlackResult(false, Failed(EmptyPattern), Cluster, 0, 0))
    else if probe.attributes.None? then Some(SlackResult(false, Failed(GetAttributes), Cluster, 0, 0))
    else if probe.attributes.value.compressed then Some(SlackResult(false, Skipped(CompressedFile), Cluster, 0, 0))
    else if probe.attributes.value.sparse then Some(SlackResult(false, Skipped(SparseFile), Cluster, 0, 0))
    else if probe.attributes.value.encrypted then Some(SlackResult(false, Skipped(EncryptedFile), Cluster, 0, 0))
    else if probe.IsCow() then Some(SlackResult(false, Skipped(CowFilesystem), Cluster, 0, 0))
    else if unit == 0 then Some(SlackResult(false, Failed(ClusterSizeUnknown), Cluster, 0, 0))
    else if PlaceOf(size, unit) == 0 then Some(SlackResult(true, Skipped(NoSlack), Cluster, unit, 0))
    else if !probe.opens then Some(SlackResult(false, Failed(OpenFile), Cluster, unit, 0))
    else if probe.residency.ErrorOther? then Some(SlackResult(false, Failed(RetrievalPointers), Cluster, unit, 0))
    else if probe.residency.ResidentOrUnsupported? && probe.fsName == "NTFS" then
      Some(SlackResult(true, Skipped(ResidentMftData), Cluster, unit, 0))
    else None
  }

  lemma RunsOnlyWhereSafe(probe: Probe, size: nat, pattern: seq<Byte>)
    ensures Obstacle(probe, size, pattern).None? <==>
            && probe.clusterSize > 0 && PlaceOf(size, probe.clusterSize) != 0
            && pattern != [] && probe.opens && !probe.IsCow()
            && probe.attributes == Some(Attributes(false, false, false))
            && (probe.residency.HasExtents? || (probe.residency.ResidentOrUnsupported? && probe.fsName != "NTFS"))
  {
    if size == 0 && probe.clusterSize > 0 { SlackPosix.ZeroHasNoRemainder(probe.clusterSize); }
  }

  lemma ObstaclesAreHonest(probe: Probe, size: nat, pattern: seq<Byte>)
    requires Obstacle(probe, size, pattern).Some?
    ensures var r := Obstacle(probe, size, pattern).value; !Ran(r.status) && Honest(r, size)
  {
    var r := Obstacle(probe, size, pattern).value;
    assert !IsSuccess(r.status) && r.bytesOverwritten == 0;
  }

  /** The tail is left in place by a skip exactly when a non-empty file meets such an answer. */
  lemma DeclinedIff(probe: Probe, size: nat, pattern: seq<Byte>)
    requires pattern != []
    ensures Obstacle(probe, size, pattern).Some? && LeftInPlace(Obstacle(probe, size, pattern).value.status)
       <==> size > 0 && probe.Declines()
  {
  }

  /** The raw answers that stop the run, each with its own result and no other. */
  lemma SkipsFromAnswers(probe: Probe, size: nat, pattern: seq<Byte>)
    ensures var o, unit, a := Obstacle(probe, size, pattern), probe.clusterSize, probe.attributes;
      var usable := size > 0 && pattern != [] && a.Some?;
      var plain := usable && !a.value.compressed && !a.value.sparse && !a.value.encrypted && probe.fsName != "ReFS";
      && ((o.Some? && o.value.status == Skipped(EmptyFile)) <==> size == 0)
      && ((o.Some? && o.value.status == Skipped(CompressedFile)) <==> usable && a.value.compressed)
      && ((o.Some? && o.value.status.Skipped? && !o.value.eliminated) <==> usable && !plain)
      && ((o.Some? && o.value.status == Skipped(NoSlack)) <==> plain && unit > 0 && size % unit == 0)
      && ((o.Some? && o.value.status == Skipped(ResidentMftData)) <==>
            plain && unit > 0 && size % unit != 0 && probe.opens
            && probe.residency.ResidentOrUnsupported? && probe.fsName == "NTFS")
      && (o.Some? && o.value.eliminated ==>
            o.value.status in {Skipped(EmptyFile), Skipped(NoSlack), Skipped(ResidentMftData)})
      && (o.None? <==> plain && unit > 0 && size % unit != 0 && probe.opens && !probe.residency.ErrorOther?
                       && !(probe.residency.ResidentOrUnsupported? && probe.fsName == "NTFS"))
  {
  }

  /** SetFilePointerEx followed by SetEndOfFile; either may fail. */
  method SetSize(file: File, size: nat) returns (ok: bool)
    requires file.Valid()
    modifies file`cache, file`media, file`length, file`pos, file`faults, file`failedShrinks
    ensures file.Valid()
    ensures file.length == if ok then size else old(file.length)
    ensures file.faults == old(file.faults) + if ok then 0 else 1
    ensures file.failedShrinks == old(file.failedShrinks) + if !ok && size < old(file.length) then 1 else 0
    ensures !ok || size <= old(file.length) ==> file.cache == old(file.cache)
    ensures ok ==> |file.cache| == Max(|old(file.cache)|, size)
    ensures ok ==> forall i :: 0 <= i < |old(file.cache)| && !(old(file.length) <= i < size) ==>
                     file.cache[i] == old(file.cache)[i]
    ensures |old(file.media)| <= |file.media|
    ensures forall i :: 0 <= i < |old(file.media)| && file.cache[i] == old(file.cache)[i] ==>
              file.media[i] == old(file.media)[i] || file.media[i] == file.cache[i]
  {
    ok := file.Seek(size);
    if !ok {
      file.failedShrinks := file.failedShrinks + if size < file.length then 1 else 0;
      return;
    }
    ok := file.Truncate(size);
  }

  /** The restore_size closure of every failing path; its outcome is ignored. */
  method RestoreSize(file: File, logicalSize: nat)
    requires file.Valid() && logicalSize < file.length
    modifies file`cache, file`media, file`length, file`pos, file`faults, file`failedShrinks
    ensures file.Valid() && file.cache == old(file.cache)
    ensures file.failedShrinks >= old(file.failedShrinks) && file.faults >= old(file.faults)
    ensures forall i :: 0 <= i < |file.media| ==>
              file.media[i] == old(file.media)[i] || file.media[i] == file.cache[i]
    ensures file.length == if file.failedShrinks > old(file.failedShrinks) then old(file.length) else logicalSize
  {
    var _ := SetSize(file, logicalSize);
    var _ := file.Sync();
  }

  /** The write loop: at most 1 MiB per call, any positive amount taken. */
  method WriteSlackBytes(file: File, writeBuf: seq<Byte>, start: nat) returns (ok: bool, ghost reached: nat)
    requires file.Valid() && file.pos == start && start + |writeBuf| <= file.length
    modifies file`cache, file`media, file`pos, file`faults
    ensures file.Valid() && reached <= |writeBuf| && (ok <==> reached == |writeBuf|)
    ensures file.cache == Overlay(old(file.cache), start, writeBuf[..reached])
    ensures old(file.OnMedia(start)) ==> file.OnMedia(start)
    ensures file.faults == old(file.faults) + if ok then 0 else 1
  {
    var totalWritten := 0;
    ghost var grown := file.cache;
    assert Overlay(grown, start, writeBuf[..0]) == grown;
    while totalWritten < |writeBuf|
      invariant file.Valid() && totalWritten <= |writeBuf| && file.pos == start + totalWritten
      invariant file.cache == Overlay(grown, start, writeBuf[..totalWritten])
      invariant old(file.OnMedia(start)) ==> file.OnMedia(start)
      invariant file.faults == old(file.faults)
    {
      var toWrite := Min(|writeBuf| - totalWritten, WRITE_CAP);
      var written: nat;
      ok, written := file.WriteFile(writeBuf[totalWritten..totalWritten + toWrite]);
      if !ok || written == 0 { return false, totalWritten; }
      assert writeBuf[totalWritten..totalWritten + toWrite][..written]
          == writeBuf[totalWritten..totalWritten + written];
      OverlaySteps(grown, start, writeBuf, totalWritten, written);
      totalWritten := totalWritten + written;
    }
    return true, totalWritten;
  }

  method EliminateSlackSpace(file: File, probe: Probe, logicalSize: nat, pattern: seq<Byte>)
    returns (r: SlackResult)
    requires file.Valid() && file.length == logicalSize
    modifies file`cache, file`media, file`length, file`pos, file`faults, file`failedShrinks
    ensures file.Valid()
    ensures Obstacle(probe, logicalSize, pattern).Some? ==>
              && r == Obstacle(probe, logicalSize, pattern).value
              && file.cache == old(file.cache) && file.media == old(file.media) && file.length == logicalSize
    ensures Obstacle(probe, logicalSize, pattern).None? ==>
              && Ran(r.status) && (IsSuccess(r.status) ==> r.status == SuccessClusterMode)
              && r.unitSize == probe.clusterSize > 0 && r.mode == Cluster
              && TailLeft(FailedStep(r.status), old(file.cache), file.cache, file.media, logicalSize, file.length,
                          probe.clusterSize, pattern, file.failedShrinks > old(file.failedShrinks))
    ensures old(file.OnMedia(logicalSize)) ==> file.OnMedia(logicalSize)
    ensures Honest(r, logicalSize)
    ensures Obstacle(probe, logicalSize, pattern).None? && file.faults == old(file.faults) ==> IsSuccess(r.status)
    ensures old(file.faults) <= file.faults
    // in the raw answers: what a success and every skip mean
    ensures var unit := probe.clusterSize;
      && (IsSuccess(r.status) ==>
            && unit > 0 && r.unitSize == unit && r.bytesOverwritten == unit - logicalSize % unit
            && pattern != [] && logicalSize + (unit - logicalSize % unit) <= |file.cache|
            && forall i :: logicalSize <= i < logicalSize + (unit - logicalSize % unit) ==>
                 file.cache[i] == pattern[(i - logicalSize) % |pattern|])
      && (r.status == Skipped(NoSlack) ==> logicalSize > 0 && unit > 0 && logicalSize % unit == 0)
      && (r.eliminated && logicalSize > 0 && !IsSuccess(r.status) ==>
            unit > 0 && (logicalSize % unit == 0 || (probe.fsName == "NTFS" && probe.residency.ResidentOrUnsupported?)))
      && (r.status.Skipped? && !r.eliminated ==>
            probe.attributes.Some? && (probe.attributes.value.compressed || probe.attributes.value.sparse
                                       || probe.attributes.value.encrypted || probe.fsName == "ReFS"))
    // the length and the bytes outside the tail, whatever failed
    ensures file.length == logicalSize || (!r.eliminated && file.failedShrinks > old(file.failedShrinks))
    ensures logicalSize <= |old(file.cache)| <= |file.cache|
    ensures file.cache[..logicalSize] == old(file.cache)[..logicalSize]
  {
    SkipsFromAnswers(probe, logicalSize, pattern);
    r := UNTOUCHED.(mode := Cluster);
    if logicalSize == 0 {
      r := r.(status := Skipped(EmptyFile), eliminated := true);
      return;
    }
    if pattern == [] {
      r := r.(status := Failed(EmptyPattern));
      return;
    }

    // 1. attributes that break the in-place assumption
    if probe.attributes.None? {
      r := r.(status := Failed(GetAttributes));
      return;
    }
    var attributes := probe.attributes.value;
    if attributes.compressed {
      r := r.(status := Skipped(CompressedFile));
      return;
    }
    if attributes.sparse {
      r := r.(status := Skipped(SparseFile));
      return;
    }
    if attributes.encrypted {
      r := r.(status := Skipped(EncryptedFile));
      return;
    }
    if probe.IsCow() {
      r := r.(status := Skipped(CowFilesystem));
      return;
    }

    // 2. allocation unit
    var unitSize := probe.clusterSize;
    if unitSize == 0 {
      r := r.(status := Failed(ClusterSizeUnknown));
      return;
    }
    r := r.(unitSize := unitSize);
    var remainder := PlaceOf(logicalSize, unitSize);
    if remainder == 0 {
      r := r.(status := Skipped(NoSlack), eliminated := true);
      return;
    }
    if !probe.opens {
      r := r.(status := Failed(OpenFile));
      return;
    }
    file.pos := 0;

    // 3. resident files
    if probe.residency == ErrorOther {
      r := r.(status := Failed(RetrievalPointers));
      return;
    }
    if probe.residency == ResidentOrUnsupported {
      if probe.fsName == "NTFS" {
        r := r.(status := Skipped(ResidentMftData), eliminated := true);
        return;
      }
    }
    var step := FillTail(file, logicalSize, unitSize, pattern);
    if step.Some? {
      r := r.(status := Failed(step.value));
      return;
    }
    r := r.(bytesOverwritten := unitSize - remainder, eliminated := true, status := SuccessClusterMode);
  }

  /** Steps 5 and 6: seek, write and flush the tail of the grown file; a failing step tries to bring
      the size back and is returned. */
  method OverwriteTail(file: File, logicalSize: nat, writeBuf: seq<Byte>)
    returns (failed: Option<Step>, ghost reached: nat)
    requires file.Valid() && |writeBuf| > 0 && file.length == logicalSize + |writeBuf|
    modifies file`cache, file`media, file`length, file`pos, file`faults, file`failedShrinks
    ensures file.Valid()
    ensures failed.None? || failed == Some(SeekEof) || failed == Some(WriteSlack) || failed == Some(Flush)
    ensures TailReached(failed, reached, old(file.cache), file.cache, logicalSize, writeBuf)
    ensures failed.None? ==> file.OnMedia(file.length) && file.failedShrinks == old(file.failedShrinks)
    ensures file.failedShrinks >= old(file.failedShrinks)
    ensures file.length == if failed.None? || file.failedShrinks > old(file.failedShrinks) then old(file.length)
                           else logicalSize
    ensures old(file.OnMedia(logicalSize)) ==> file.OnMedia(logicalSize)
    ensures failed.None? ==> file.faults == old(file.faults)
    ensures failed.Some? ==> file.faults > old(file.faults)
  {
    reached := 0;
    assert Overlay(file.cache, logicalSize, writeBuf[..0]) == file.cache;
    var ok := file.Seek(logicalSize);
    if !ok {
      RestoreSize(file, logicalSize);
      return Some(SeekEof), reached;
    }
    ok, reached := WriteSlackBytes(file, writeBuf, logicalSize);
    if !ok {
      RestoreSize(file, logicalSize);
      return Some(WriteSlack), reached;
    }
    ok := file.Sync();
    if !ok {
      RestoreSize(file, logicalSize);
      return Some(Flush), reached;
    }
    return None, reached;
  }

  /** Steps 5 to 7: the same, and then the original size again. */
  method OverwriteAndRestore(file: File, logicalSize: nat, writeBuf: seq<Byte>)
    returns (failed: Option<Step>, ghost reached: nat)
    requires file.Valid() && |writeBuf| > 0 && file.length == logicalSize + |writeBuf|
    modifies file`cache, file`media, file`length, file`pos, file`faults, file`failedShrinks
    ensures file.Valid()
    ensures failed.Some? ==> failed != Some(Grow) && Ran(Failed(failed.value))
    ensures TailReached(failed, reached, old(file.cache), file.cache, logicalSize, writeBuf)
    ensures TailRestored(failed, file.media, file.cache, logicalSize, old(file.length), file.length,
                         file.failedShrinks > old(file.failedShrinks))
    ensures file.failedShrinks >= old(file.failedShrinks)
    ensures old(file.OnMedia(logicalSize)) ==> file.OnMedia(logicalSize)
    ensures failed.Some? ==> file.faults > old(file.faults)
    ensures old(file.faults) <= file.faults
  {
    failed, reached := OverwriteTail(file, logicalSize, writeBuf);
    if failed.Some? { return; }
    var ok := SetSize(file, logicalSize);
    if !ok { return Some(Restore), reached; }
    var _ := file.Sync();
  }

  /** Steps 4 to 7: grow, overwrite, restore. Returns the step that failed, if one did. */
  method FillTail(file: File, logicalSize: nat, unitSize: nat, pattern: seq<Byte>) returns (failed: Option<Step>)
    requires file.Valid() && file.length == logicalSize
    requires unitSize > 0 && PlaceOf(logicalSize, unitSize) != 0 && pattern != []
    modifies file`cache, file`media, file`length, file`pos, file`faults, file`failedShrinks
    ensures file.Valid()
    ensures failed.Some? ==> Ran(Failed(failed.value))
    ensures TailLeft(failed, old(file.cache), file.cache, file.media, logicalSize, file.length,
                     unitSize, pattern, file.failedShrinks > old(file.failedShrinks))
    ensures old(file.OnMedia(logicalSize)) ==> file.OnMedia(logicalSize)
    ensures file.faults == old(file.faults) ==> failed.None?
    ensures old(file.faults) <= file.faults
  {
    var targetSize := logicalSize + (unitSize - PlaceOf(logicalSize, unitSize));
    var bytesToOverwrite := targetSize - logicalSize;
    var ok := SetSize(file, targetSize);
    if !ok { return Some(Grow); }
    ghost var grown := file.cache;
    ghost var reached;
    failed, reached := OverwriteAndRestore(file, logicalSize, Cycle(pattern, bytesToOverwrite));
    TailFromSteps(failed, reached, old(file.cache), grown, file.cache, file.media, logicalSize, file.length,
                  unitSize, pattern, file.failedShrinks > old(file.failedShrinks));
  }

  /** The two builds refine one operation: on equal allocated bytes, with the same unit and
      pattern, two successes leave the same bytes, on the medium too, and the same claim. */
  method BuildsAgree(a: File, b: File, posix: SlackPosix.Probe, win32: Probe, size: nat, pattern: seq<Byte>)
    returns (p: SlackResult, w: SlackResult)
    requires a != b && a.Valid() && b.Valid() && a.length == b.length == size
    requires a.cache == b.cache && posix.UnitSize() == win32.clusterSize
    modifies a, b
    ensures IsSuccess(p.status) && IsSuccess(w.status) ==>
              && a.cache == b.cache && a.length == b.length == size
              && p.bytesOverwritten == w.bytesOverwritten && p.unitSize == w.unitSize > 0
              && a.OnMedia(Boundary(size, p.unitSize)) && b.OnMedia(Boundary(size, p.unitSize))
  {
    SlackPosix.RunsOnlyWhereSafe(posix, size, pattern);
    RunsOnlyWhereSafe(win32, size, pattern);
    p := SlackPosix.EliminateSlackSpace(a, posix, size, pattern);
    w := EliminateSlackSpace(b, win32, size, pattern);
  }
}
