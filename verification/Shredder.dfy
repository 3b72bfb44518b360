/** The pipeline of FileShredder: overwrite, flush, slack, verification, discard, scrub, and the
    audit record that reports them. */
module Shredder {
  import opened Audit
  import opened Runs
  import opened Bytes
  import opened Passes
  import opened Store
  import opened Namespace
  import opened Overwrite
  import opened Verifiers
  import Slack
  import SlackPosix
  import SlackWin32
  import Discard
  import Removal

  class FileShredder {
    const config: Config
    const build: Build
    var records: seq<AuditRecord>

    constructor (config: Config, build: Build)
      ensures this.config == config && this.build == build && records == [] && AuditSound()
    {
      this.config, this.build, records := config, build, [];
    }

    /** The audit trail as a whole: every record is sound. */
    ghost predicate AuditSound()
      reads this
    {
      forall i :: 0 <= i < |records| ==> Sound(config, records[i])
    }

    /** Step 3, by whichever platform file is compiled in. */
    method EliminateSlack(file: File, answers: Answers, size: nat, pattern: seq<Byte>) returns (r: Slack.SlackResult)
      requires file.Valid() && file.length == size && |pattern| > 0
      modifies file`cache, file`media, file`length, file`pos, file`interrupts, file`faults, file`failedShrinks
      ensures file.Valid() && size <= file.length && file.cache[..size] == old(file.cache)[..size]
      ensures file.length != size ==> !r.eliminated && file.failedShrinks > old(file.failedShrinks)
      ensures Slack.Honest(r, size)
      ensures Slack.IsSuccess(r.status) ==> file.OnMedia(Vouched(size, r))
      ensures Slack.IsSuccess(r.status) ==> file.cache == Slack.Filled(old(file.cache), size, r.unitSize, pattern)
      // the tail is left in place by a skip exactly if the system declined in advance
      ensures Slack.LeftInPlace(r.status) <==> TailDeclined(build, answers, size)
      ensures SlackStep(TailObstacle(build, answers, size, pattern), r, size, pattern, old(StateOf(file)),
                        StateOf(file), file.failedShrinks > old(file.failedShrinks), file.faults > old(file.faults))
      ensures TailObstacle(build, answers, size, pattern).Some? ==> !Slack.Ran(r.status)
      ensures Slack.IsSuccess(r.status) ==>
        r.unitSize == if build.PosixBuild? then answers.posix.UnitSize() else answers.win32.clusterSize
      ensures old(file.OnMedia(size)) ==> file.OnMedia(size)
      ensures old(file.faults) <= file.faults
    {
      match build {
        case PosixBuild =>
          SlackPosix.DeclinedIff(answers.posix, size, pattern);
          if TailObstacle(build, answers, size, pattern).Some? {
            SlackPosix.ObstaclesAreHonest(answers.posix, size, pattern);
          }
          r := SlackPosix.EliminateSlackSpace(file, answers.posix, size, pattern);
        case Win32Build =>
          SlackWin32.DeclinedIff(answers.win32, size, pattern);
          if TailObstacle(build, answers, size, pattern).Some? {
            SlackWin32.ObstaclesAreHonest(answers.win32, size, pattern);
          }
          r := SlackWin32.EliminateSlackSpace(file, answers.win32, size, pattern);
      }
    }

    /** Step 4: the byte check for methods that end in zeros, the entropy check for the others. */
    method Verify(file: File, size: nat, session: ReadFaults) returns (kind: Verification, passed: bool)
      requires file.Valid() && size <= file.length && config.bufferSize > 0
      ensures kind == if ZeroEnding(config) then ByteZeroCheck else ShannonEntropyCheck
      ensures passed <==> PassesCheck(config, file.cache[..size], session)
      // the byte check: all of the payload was read, and all of it is zero
      ensures ZeroEnding(config) ==>
        (passed <==> size == 0 || (session.opens && size <= session.readable
                                   && forall i :: 0 <= i < size ==> file.cache[i] == 0))
      ensures !ZeroEnding(config) ==> (passed <==> PassesEntropy(file.cache[..size], session, size))
    {
      var content := file.cache[..file.length];
      assert content[..size] == file.cache[..size];
      assert ReadPrefix(content, session, size) == ReadPrefix(file.cache[..size], session, size);
      if ZeroEnding(config) {
        passed := VerifyTargetPattern(content, session, config.bufferSize, size, 0x00);
        kind := ByteZeroCheck;
      } else {
        var total, power: nat;
        passed, total, power := VerifyEntropy(content, session, config.bufferSize, size);
        kind := ShannonEntropyCheck;
      }
    }

    /** Step 5, by whichever platform file is compiled in. */
    method DiscardBlocks(file: File, answers: Answers, size: nat) returns (d: Discard.DiscardResult, ghost synced: bool)
      requires file.Valid()
      modifies file`cache, file`media, file`faults, file`punches, file`lastMedia
      ensures file.Valid() && Discard.Reports(d, file.punches > old(file.punches))
      ensures Discard.Leaves(d, synced, DiscardEnd(build, answers.win32.clusterSize, size), file.length,
                             old(file.cache), old(file.media), file.cache,
                             if d.invoked then file.lastMedia else file.media)
      ensures old(file.faults) <= file.faults && file.length == old(file.length)
      ensures file.faults == old(file.faults) && size > 0 && answers.discardOpens ==> synced && d.invoked
      // byte by byte: the payload on POSIX, whole clusters on Win32
      ensures var unit := if answers.win32.clusterSize > 0 then answers.win32.clusterSize else 4096;
        var end := if build.PosixBuild? || size % unit == 0 then size else size + (unit - size % unit);
        && |file.cache| == |old(file.cache)|
        && forall i :: 0 <= i < |file.cache| ==>
             file.cache[i] == if d.invoked && i < end then 0 else old(file.cache)[i]
    {
      match build {
        case PosixBuild =>
          d, synced := Discard.DiscardPosix(file, size, answers.discardOpens);
        case Win32Build =>
          d, synced := Discard.DiscardWin32(file, size, answers.discardOpens, answers.win32.clusterSize);
      }
    }

    /** Steps 2 and 3: the flush and the slack run. */
    method FlushAndFill(file: File, answers: Answers, size: nat, pattern: seq<Byte>)
      returns (slack: Slack.SlackResult, ghost flushed: bool)
      requires file.Valid() && file.length == size && |pattern| > 0
      modifies file`cache, file`media, file`length, file`pos, file`interrupts, file`faults, file`failedShrinks
      ensures file.Valid() && size <= file.length && file.cache[..size] == old(file.cache)[..size]
      ensures Slack.Honest(slack, size) && SlackFits(TailObstacle(build, answers, size, pattern), slack)
      ensures Slack.LeftInPlace(slack.status) <==> TailDeclined(build, answers, size)
      ensures ReadsAs(old(file.Payload()) + Cycle(pattern, Vouched(size, slack) - size), Reach(size, slack), 0,
                      old(file.cache), file.cache)
      ensures file.length == size || (file.length == Reach(size, slack) && !slack.eliminated)
      ensures flushed ==> file.OnMedia(size)
      ensures Slack.IsSuccess(slack.status) ==> file.OnMedia(Vouched(size, slack))
      ensures old(file.faults) <= file.faults
      ensures file.faults == old(file.faults) ==>
                flushed && (TailObstacle(build, answers, size, pattern).None? ==> Slack.IsSuccess(slack.status))
    {
      flushed := file.Sync();
      ghost var entered, shrinks, faults := StateOf(file), file.failedShrinks, file.faults;
      slack := EliminateSlack(file, answers, size, pattern);
      SlackReads(TailObstacle(build, answers, size, pattern), slack, size, pattern, entered, StateOf(file),
                 file.failedShrinks > shrinks, file.faults > faults);
    }

    /** Steps 2 to 5, from the flush to the discard. */
    method TreatPayload(file: File, answers: Answers, size: nat, rec: AuditRecord)
      returns (next: AuditRecord, ghost flushed: bool, ghost trimSynced: bool, ghost media: seq<Byte>)
      requires file.Valid() && file.length == size && config.bufferSize > 0
      modifies file
      ensures file.Valid()
      ensures next == rec.(slack := next.slack, trim := next.trim,
                           verification := next.verification, verified := next.verified)
      ensures Handled(config, build, answers, next, old(file.Payload()), flushed || trimSynced, media)
      ensures Discard.Reports(next.trim, file.punches > old(file.punches))
      ensures media == Held(StateOf(file), next)
      ensures FileLeft(config, build, answers, next, old(file.Payload()), old(file.cache), StateOf(file))
      ensures old(file.faults) <= file.faults
      ensures file.faults == old(file.faults) ==>
                Undisturbed(config, build, answers, next, size, flushed, trimSynced)
    {
      ghost var payload, before := file.Payload(), file.cache;
      var pattern := FinalPassPattern(config, answers.noise);
      var slack;
      slack, flushed := FlushAndFill(file, answers, size, pattern);
      ghost var whole := payload + Cycle(pattern, Vouched(size, slack) - size);
      assert file.cache[..size] == payload && file.cache[..|whole|] == whole;
      var kind, passed := Verify(file, size, answers.session);
      ghost var cache, synced, length := file.cache, file.media, file.length;
      var trim;
      trim, trimSynced := DiscardBlocks(file, answers, size);
      next := rec.(slack := slack, trim := trim, verification := kind, verified := passed);
      media := Held(StateOf(file), next);
      DiscardReads(whole, Reach(size, slack),
                   if trim.invoked then DiscardEnd(build, answers.win32.clusterSize, size) else 0,
                   before, cache, file.cache);
      MediumFits(payload, pattern, slack, flushed, trimSynced, cache, synced, media, length);
    }

    /** Steps 2 to 5 behind a successful overwrite, in the terms of its run. */
    method TreatOverwritten(file: File, answers: Answers, rec: AuditRecord, ghost t: Trace, ghost start: FileState)
      returns (next: AuditRecord, ghost t': Trace)
      requires file.Valid() && config.bufferSize > 0 && file.length == start.length == rec.fileSize
      requires |start.cache| == |file.cache|
      requires forall i :: file.length <= i < |file.cache| ==> file.cache[i] == start.cache[i]
      requires var run := RunOf(config, answers, t, start);
        && run.Valid() && Shuffled(t.order) && t.done == (if run.size == 0 then 0 else |run.plan|)
        && file.Payload() == run.After(t.done) == t.laid
      requires rec.passesCompleted == t.done % TWO_TO_THE_32
      modifies file
      ensures file.Valid()
      ensures t' == t.(flushed := t'.flushed, trimSynced := t'.trimSynced, media := Held(StateOf(file), next))
      ensures Treated(config, build, answers, next, t', RunOf(config, answers, t', start)) && next.target == rec.target
      ensures FileLeft(config, build, answers, next, t'.laid, start.cache, StateOf(file))
      ensures old(file.faults) <= file.faults
      ensures file.faults == old(file.faults) ==>
                Undisturbed(config, build, answers, next, start.length, t'.flushed, t'.trimSynced)
      ensures Discard.Reports(next.trim, file.punches > old(file.punches))
    {
      ghost var flushed, trimSynced, media, overlaid := false, false, [], file.cache;
      next, flushed, trimSynced, media := TreatPayload(file, answers, file.length, rec);
      t' := t.(flushed := flushed, trimSynced := trimSynced, media := media);
      FileLeftFromStart(config, build, answers, next, t.laid, start.cache, overlaid, StateOf(file));
    }

    /** Step 1, with its outcome as the start of a trace. */
    method OverwriteStep(file: File, answers: Answers)
      returns (ok: bool, passesExecuted: Uint32, ghost t: Trace, ghost run: Run)
      requires file.Valid() && config.bufferSize > 0
      modifies file`cache, file`media, file`faults
      ensures file.Valid() && run == RunOf(config, answers, t, old(StateOf(file))) && Shuffled(t.order)
      ensures run.size == file.length && run.Valid() && passesExecuted == t.done % TWO_TO_THE_32
      ensures file.faults == old(file.faults) + if ok then 0 else 1
      ensures !ok ==> Explains(run, false, t.done, t.cut, old(file.cache), file.cache)
      ensures ok ==> t.done == (if run.size == 0 then 0 else |run.plan|)
      ensures ok ==> file.Payload() == run.After(t.done) == t.laid
      ensures |file.cache| == |old(file.cache)|
      ensures forall i :: run.size <= i < |file.cache| ==> file.cache[i] == old(file.cache)[i]
    {
      ghost var order, done, cut;
      ok, passesExecuted, order, done, cut := ExecutePasses(config, file, answers.draws);
      t := Trace(order, done, cut, file.Payload(), false, false, [], [false, false, false]);
      run := Run(Plan(config, order), file.length, config.bufferSize, answers.draws, old(file.Payload()));
      if ok { CompletedPayload(run, done, old(file.cache), file.cache); }
    }

    /** Steps 1 to 5: the overwrite and what follows it up to the discard. */
    method Sanitize(file: File, answers: Answers, rec: AuditRecord)
      returns (overwritten: bool, next: AuditRecord, ghost t: Trace)
      requires file.Valid() && config.bufferSize > 0
      requires rec == BLANK.(target := rec.target, fileSize := file.length)
      modifies file
      ensures file.Valid()
      ensures !overwritten ==>
        && next == rec.(status := FailedOverwrite) && file.punches == old(file.punches)
        && file.faults == old(file.faults) + 1
        && Sound(config, next) && Accounted(config, build, answers, next, t, old(StateOf(file)), StateOf(file))
      ensures overwritten ==>
        && Treated(config, build, answers, next, t, RunOf(config, answers, t, old(StateOf(file))))
        && next.target == rec.target && t.media == Held(StateOf(file), next)
        && FileLeft(config, build, answers, next, t.laid, old(file.cache), StateOf(file))
        && (file.faults == old(file.faults) ==>
              Undisturbed(config, build, answers, next, old(file.length), t.flushed, t.trimSynced))
        && Discard.Reports(next.trim, file.punches > old(file.punches))
    {
      var passesExecuted: Uint32;
      ghost var run;
      overwritten, passesExecuted, t, run := OverwriteStep(file, answers);
      next := rec;
      if overwritten {
        next := next.(passesCompleted := passesExecuted);
        next, t := TreatOverwritten(file, answers, next, t, old(StateOf(file)));
      } else {
        next := next.(status := FailedOverwrite);
        FailedAccounted(config, build, answers, next, t, old(StateOf(file)), StateOf(file));
      }
    }

    /** The closing status of a record. */
    method Conclude(rec: AuditRecord, scrubbed: bool) returns (next: AuditRecord)
      ensures next == rec.(scrubbed := scrubbed, status := next.status)
      ensures Concluded(next) && (rec.verified <==> Succeeded(next.status))
      ensures next.status.FailedVerification? || Succeeded(next.status)
    {
      next := rec.(scrubbed := scrubbed);
      var slackOk := rec.slack.eliminated || rec.slack.status.Skipped?;
      if !rec.verified {
        next := next.(status := FailedVerification);
      } else if !scrubbed || !slackOk {
        next := next.(status := SuccessWithWarnings);
      } else {
        next := next.(status := SuccessVerified);
      }
    }

    /** Step 6 and the closing status. */
    method ScrubAndConclude(volume: Volume, path: Path, file: File, answers: Answers, treated: AuditRecord,
                            ghost t: Trace, ghost start: FileState)
      returns (record: AuditRecord, ghost t': Trace)
      requires volume.Valid() && path != [] && treated.target == path
      requires IsRegular(volume.entries, path)
      requires Treated(config, build, answers, treated, t, RunOf(config, answers, t, start))
      requires t.media == Held(StateOf(file), treated)
      requires FileLeft(config, build, answers, treated, t.laid, start.cache, StateOf(file))
      requires treated.trim.invoked <==> treated.trim.status.Punched?
      modifies volume`entries, volume`faults
      ensures volume.Valid()
      ensures record == treated.(scrubbed := record.scrubbed, status := record.status) && Completed(record.status)
      ensures record.trim == treated.trim && file.punches == old(file.punches)
      ensures t' == t.(moved := t'.moved)
      ensures Sound(config, record) && Accounted(config, build, answers, record, t', start, StateOf(file))
      ensures Scrubbed(old(volume.entries), volume.entries, volume.stuck, path, answers.nonce, t'.moved,
                       record.scrubbed)
      ensures volume.faults == old(volume.faults) + Misses(t'.moved)
    {
      var scrubbed: bool;
      ghost var moved, names;
      scrubbed, moved, names := ScrubMetadata(volume, path, answers.nonce);
      t' := t.(moved := moved);
      record := Conclude(treated, scrubbed);
      CompletedSound(config, build, answers, treated, record, t, t', start);
      CompletedAccounted(config, build, answers, treated, record, t, t', start, StateOf(file));
    }

    /** shred_file on a regular file. */
    method ShredRegular(volume: Volume, path: Path, file: File, answers: Answers)
      returns (record: AuditRecord, ghost t: Trace)
      requires volume.Valid() && path != [] && config.bufferSize > 0
      requires IsRegular(volume.entries, path) && volume.entries[path].file == file
      modifies volume`entries, volume`faults, file
      ensures volume.Valid()
      ensures record.target == path && Sound(config, record)
      ensures Completed(record.status) || record.status.FailedOverwrite?
      ensures record.trim.invoked <==> file.punches > old(file.punches)
      ensures Accounted(config, build, answers, record, t, old(StateOf(file)), StateOf(file))
      ensures record.status.FailedOverwrite? ==>
                volume.entries == old(volume.entries) && file.faults == old(file.faults) + 1
      ensures file.faults == old(file.faults) ==>
                Completed(record.status)
                && Undisturbed(config, build, answers, record, old(file.length), t.flushed, t.trimSynced)
      ensures Completed(record.status) ==>
                Scrubbed(old(volume.entries), volume.entries, volume.stuck, path, answers.nonce, t.moved,
                         record.scrubbed)
      ensures volume.faults == old(volume.faults) + CallMisses(record, t.moved)
    {
      ghost var start := StateOf(file);
      record := BLANK.(target := path, fileSize := file.length);
      var overwritten: bool;
      overwritten, record, t := Sanitize(file, answers, record);
      if overwritten {
        // 6. metadata scrub and removal
        record, t := ScrubAndConclude(volume, path, file, answers, record, t, start);
      }
    }

    /** shred_file. */
    method ShredFile(volume: Volume, path: Path, answers: Answers)
      returns (ok: bool, ghost rec: AuditRecord, ghost t: Trace)
      requires volume.Valid() && path != [] && config.bufferSize > 0
      modifies this`records, volume`entries, volume`faults,
               if IsRegular(volume.entries, path) then {volume.entries[path].file} else {}
      ensures volume.Valid()
      // one sound record per call, appended
      ensures records == old(records) + [rec] && rec.target == path && Sound(config, rec)
      ensures ok <==> Succeeded(rec.status)
      ensures rec.status.SkippedNotRegularFile? <==> !IsRegular(old(volume.entries), path)
      ensures !Completed(rec.status) ==> volume.entries == old(volume.entries)
      ensures Completed(rec.status) ==>
                Scrubbed(old(volume.entries), volume.entries, volume.stuck, path, answers.nonce, t.moved, rec.scrubbed)
      ensures volume.faults == old(volume.faults) + CallMisses(rec, t.moved)
      ensures IsRegular(old(volume.entries), path) ==>
        var file := old(volume.entries)[path].file;
        && (rec.trim.invoked <==> file.punches > old(file.punches))
        && Accounted(config, build, answers, rec, t, old(StateOf(file)), StateOf(file))
        && (rec.status.FailedOverwrite? ==> file.faults == old(file.faults) + 1)
        && (file.faults == old(file.faults) ==>
              Completed(rec.status)
              && Undisturbed(config, build, answers, rec, old(file.length), t.flushed, t.trimSynced))
    {
      var record: AuditRecord;
      if IsRegular(volume.entries, path) {
        record, t := ShredRegular(volume, path, volume.entries[path].file, answers);
      } else {
        record := BLANK.(target := path, status := SkippedNotRegularFile);
        t := Trace(GutmannPatterns(), 0, 0, [], false, false, [], [false, false, false]);
      }
      rec, records := record, records + [record];
      ok := record.verified;
    }

    /** Call i of shred_file, with the states of all files in view; `start` is how it found its own. */
    method ShredTracked(volume: Volume, path: Path, answers: nat -> Answers, i: nat)
      returns (ok: bool, ghost rec: AuditRecord, ghost t: Trace, ghost start: FileState)
      requires volume.Valid() && path != [] && config.bufferSize > 0
      modifies this`records, volume`entries, volume`faults,
               if IsRegular(volume.entries, path) then {volume.entries[path].file} else {}
      ensures volume.Valid()
      ensures records == old(records) + [rec] && rec.target == path && Sound(config, rec)
      ensures ok <==> Succeeded(rec.status)
      ensures rec.status.SkippedNotRegularFile? <==> !IsRegular(old(volume.entries), path)
      ensures !Completed(rec.status) ==> volume.entries == old(volume.entries)
      ensures Completed(rec.status) ==>
                Scrubbed(old(volume.entries), volume.entries, volume.stuck, path, answers(i).nonce, t.moved,
                         rec.scrubbed)
      ensures volume.faults == old(volume.faults) + CallMisses(rec, t.moved)
      ensures OneTouched(old(volume.entries), path, old(StatesOf(volume.files)), StatesOf(volume.files))
      ensures IsRegular(old(volume.entries), path) ==>
        var file := old(volume.entries)[path].file;
        && file in volume.files && start == old(StatesOf(volume.files))[file]
        && Account(config, build, answers)(i, rec, t, start, StatesOf(volume.files)[file])
    {
      start := if IsRegular(volume.entries, path) then StateOf(volume.entries[path].file) else FileState([], 0, [], []);
      ghost var own := if IsRegular(volume.entries, path) then {volume.entries[path].file} else {};
      ghost var now := StatesOf(volume.files);
      ok, rec, t := ShredFile(volume, path, answers(i));
      forall f | f in volume.files - own
        ensures StatesOf(volume.files)[f] == now[f]
      {
        assert f !in own;
        assert f.cache == old(f.cache) && f.length == old(f.length);
        assert f.media == old(f.media) && f.lastMedia == old(f.lastMedia);
      }
    }

    /** One file of a directory. */
    method ShredEntry(volume: Volume, dir: Path, path: Path, answers: nat -> Answers, i: nat)
      returns (ghost rec: AuditRecord, ghost t: Trace, ghost start: FileState)
      requires volume.Valid() && config.bufferSize > 0 && Below(dir, path)
      modifies this`records, volume`entries, volume`faults,
               if IsRegular(volume.entries, path) then {volume.entries[path].file} else {}
      ensures volume.Valid()
      ensures records == old(records) + [rec] && rec.target == path && Sound(config, rec)
      ensures rec.status.SkippedNotRegularFile? <==> !IsRegular(old(volume.entries), path)
      ensures OneTouched(old(volume.entries), path, old(StatesOf(volume.files)), StatesOf(volume.files))
      ensures IsRegular(old(volume.entries), path) ==>
        var file := old(volume.entries)[path].file;
        && file in volume.files && start == old(StatesOf(volume.files))[file]
        && Account(config, build, answers)(i, rec, t, start, StatesOf(volume.files)[file])
      ensures Backing(config, build, answers)(i, rec, t, start)
      ensures Completed(rec.status) ==> |t.moved| == 3
      // the tree is exactly that of the call: only its name and the masks it moved through can go
      ensures volume.entries == AfterCall(old(volume.entries), volume.stuck, rec, answers(i).nonce, t.moved)
      ensures volume.faults == old(volume.faults) + CallMisses(rec, t.moved)
      ensures OnlyFilesChange(old(volume.entries), volume.entries, dir)
      ensures OldOrRefused(old(volume.entries), volume.entries, volume.stuck, Masks(path, answers(i).nonce))
      ensures volume.stuck == {} ==> volume.entries.Keys <= old(volume.entries).Keys
      ensures volume.stuck == {} && !rec.status.FailedOverwrite? ==> !IsRegular(volume.entries, path)
    {
      var ok: bool;
      ok, rec, t, start := ShredTracked(volume, path, answers, i);
      if Completed(rec.status) {
        ScrubFrame(old(volume.entries), volume.entries, volume.stuck, path, answers(i).nonce, t.moved,
                   rec.scrubbed, dir);
      }
    }

    /** A file stage between two files. */
    ghost predicate Midstage(s: Stage, volume: Volume, dir: Path, files: seq<Path>, answers: nat -> Answers)
      reads this, volume, volume.files
    {
      && volume.Valid() && config.bufferSize > 0 && records == s.first + s.recs
      && NoHardLinks(s.tree)
      && (forall p :: p in files ==> Below(dir, p) && IsRegular(s.tree, p))
      && (forall j, k :: 0 <= j < k < |files| ==> files[j] != files[k])
      && TreeKept(s, config, volume.entries, dir, volume.stuck, files)
      && CallsKept(s, volume.entries, volume.faults, files, answers, volume.stuck)
      && FilesKept(s, Backing(config, build, answers), Account(config, build, answers),
                   volume.entries, StatesOf(volume.files), files, answers, volume.stuck)
    }

    /** One turn of the file stage. */
    method ShredNext(ghost s: Stage, volume: Volume, dir: Path, files: seq<Path>, i: nat, answers: nat -> Answers)
      returns (ghost next: Stage)
      requires Midstage(s, volume, dir, files, answers) && i == |s.recs| < |files|
      modifies this`records, volume`entries, volume`faults, volume.files
      ensures Midstage(next, volume, dir, files, answers)
      ensures next == s.(recs := next.recs, traces := next.traces, starts := next.starts) && |next.recs| == i + 1
    {
      ghost var entries, now, faults := volume.entries, StatesOf(volume.files), volume.faults;
      assert files[i] in files;
      ghost var rec, t, start := ShredEntry(volume, dir, files[i], answers, i);
      next := s.Next(rec, t, start);
      TurnOfTree(s, config, entries, volume.entries, dir, volume.stuck, files, rec, t, start);
      TurnOfCalls(s, entries, volume.entries, faults, volume.faults, files, answers, volume.stuck, rec, t, start);
      TurnOfFiles(s, Backing(config, build, answers), Account(config, build, answers), entries, volume.entries,
                  now, StatesOf(volume.files), files, answers, volume.stuck, rec, t, start);
    }

    /** The file stage of shred_directory: one record per file, in listing order, each backed by a
        trace; directories and everything outside `dir` stay as they are; and unless a refused
        unlink leaves an earlier file under a listed name, every file is accounted for. */
    method ShredFiles(volume: Volume, dir: Path, files: seq<Path>, answers: nat -> Answers)
      returns (ghost traces: seq<Trace>, ghost starts: seq<FileState>)
      requires volume.Valid() && config.bufferSize > 0
      requires forall p :: p in files ==> Below(dir, p) && IsRegular(volume.entries, p)
      requires forall j, k :: 0 <= j < k < |files| ==> files[j] != files[k]
      modifies this`records, volume`entries, volume`faults, volume.files
      ensures volume.Valid()
      ensures OnlyFilesChange(old(volume.entries), volume.entries, dir)
      ensures volume.stuck == {} ==> volume.entries.Keys <= old(volume.entries).Keys
      ensures |old(records)| <= |records| && Emptied(volume.entries, volume.stuck, records[|old(records)|..], files)
      ensures |traces| == |files| == |records[|old(records)|..]|
      ensures volume.entries == TreeAfter(old(volume.entries), volume.stuck, records[|old(records)|..], traces, answers)
      ensures volume.faults == old(volume.faults) + RunMisses(records[|old(records)|..], traces)
      ensures Backed(config, build, answers, old(volume.entries), old(StatesOf(volume.files)), StatesOf(volume.files),
                     files, volume.stuck, old(records), records, traces, starts)
    {
      ghost var s := Stage(volume.entries, records, StatesOf(volume.files), volume.faults, [], [], []);
      for i := 0 to |files|
        invariant Midstage(s, volume, dir, files, answers) && |s.recs| == i
        invariant s.tree == old(volume.entries) && s.first == old(records) && s.origin == old(StatesOf(volume.files))
        invariant s.faults == old(volume.faults)
      {
        s := ShredNext(s, volume, dir, files, i, answers);
      }
      assert files[..|files|] == files;
      assert records[|s.first|..] == s.recs;
      traces, starts := s.traces, s.starts;
    }

    /** The first stage of shred_directory: the listing is sorted into files and directories, and
        the files are shredded. */
    method ShredListedFiles(volume: Volume, dir: Path, listing: seq<Path>, answers: nat -> Answers)
      returns (dirsToRemove: seq<Path>, ghost traces: seq<Trace>, ghost starts: seq<FileState>)
      requires volume.Valid() && dir != [] && config.bufferSize > 0 && IsDirectory(volume.entries, dir)
      requires Removal.PreOrder(listing)
      requires forall p :: p in listing ==> Below(dir, p)
      modifies this`records, volume`entries, volume`faults, volume.files
      ensures volume.Valid() && |old(records)| <= |records|
      ensures dirsToRemove == Removal.Select(old(volume.entries), listing, true) && Removal.PreOrder(dirsToRemove)
      ensures IsDirectory(volume.entries, dir)
      ensures forall d :: d in dirsToRemove ==> IsDirectory(volume.entries, d) && Below(dir, d)
      ensures OnlyFilesChange(old(volume.entries), volume.entries, dir)
      ensures volume.stuck == {} ==> volume.entries.Keys <= old(volume.entries).Keys
      ensures Emptied(volume.entries, volume.stuck, records[|old(records)|..],
                      Removal.Select(old(volume.entries), listing, false))
      ensures |traces| == |records[|old(records)|..]|
      ensures volume.entries == TreeAfter(old(volume.entries), volume.stuck, records[|old(records)|..], traces, answers)
      ensures volume.faults == old(volume.faults) + RunMisses(records[|old(records)|..], traces)
      ensures Backed(config, build, answers, old(volume.entries), old(StatesOf(volume.files)), StatesOf(volume.files),
                     Removal.Select(old(volume.entries), listing, false), volume.stuck,
                     old(records), records, traces, starts)
    {
      ghost var before := volume.entries;
      var filesToShred;
      filesToShred, dirsToRemove := Removal.ListEntries(volume.entries, listing);
      traces, starts := ShredFiles(volume, dir, filesToShred, answers);
      DirectoriesKept(before, volume.entries, dir);
    }

    /** The second stage, which touches no file. */
    method RemoveListed(volume: Volume, dir: Path, dirs: seq<Path>)
      requires volume.Valid() && dir != [] && IsDirectory(volume.entries, dir)
      requires Removal.PreOrder(dirs)
      requires forall d :: d in dirs ==> IsDirectory(volume.entries, d) && Below(dir, d)
      modifies volume`entries
      ensures volume.Valid() && StatesOf(volume.files) == old(StatesOf(volume.files))
      ensures var turns := Removal.Turns(dir, dirs);
        volume.entries == Removal.Remaining(old(volume.entries), turns, volume.stuck, turns)
    {
      Removal.RemoveDirectories(volume, dir, dirs);
    }

    /** Both stages of shred_directory: files in listing order, directories in reverse. */
    method ShredListed(volume: Volume, dir: Path, listing: seq<Path>, answers: nat -> Answers)
      returns (ghost afterFiles: Tree, ghost traces: seq<Trace>, ghost starts: seq<FileState>)
      requires volume.Valid() && dir != [] && config.bufferSize > 0 && IsDirectory(volume.entries, dir)
      requires Removal.PreOrder(listing)
      requires forall p :: p in listing ==> Below(dir, p)
      modifies this`records, volume`entries, volume`faults, volume.files
      ensures volume.Valid() && |old(records)| <= |records|
      ensures StagesLeave(old(volume.entries), afterFiles, volume.entries, dir, listing, volume.stuck,
                          records[|old(records)|..], traces, answers)
      ensures |traces| == |records[|old(records)|..]|
      ensures volume.faults == old(volume.faults) + RunMisses(records[|old(records)|..], traces)
      ensures Backed(config, build, answers, old(volume.entries), old(StatesOf(volume.files)), StatesOf(volume.files),
                     Removal.Select(old(volume.entries), listing, false), volume.stuck,
                     old(records), records, traces, starts)
    {
      var dirsToRemove;
      dirsToRemove, traces, starts := ShredListedFiles(volume, dir, listing, answers);
      afterFiles := volume.entries;
      RemoveListed(volume, dir, dirsToRemove);
    }

    /** shred_directory. `listing` is what the recursive iterator delivers. */
    method ShredDirectory(volume: Volume, dir: Path, listing: seq<Path>, answers: nat -> Answers)
      returns (ok: bool, ghost afterFiles: Tree, ghost traces: seq<Trace>, ghost starts: seq<FileState>)
      requires volume.Valid() && dir != [] && config.bufferSize > 0
      requires Removal.PreOrder(listing)
      requires forall p :: p in listing ==> Below(dir, p)
      modifies this`records, volume`entries, volume`faults, volume.files
      ensures volume.Valid() && |old(records)| <= |records|
      ensures ok <==> IsDirectory(old(volume.entries), dir)
      ensures !ok ==> records == old(records) && volume.entries == old(volume.entries)
      ensures ok ==> StagesLeave(old(volume.entries), afterFiles, volume.entries, dir, listing, volume.stuck,
                                 records[|old(records)|..], traces, answers)
      ensures |traces| == |records[|old(records)|..]|
      ensures volume.faults == old(volume.faults) + RunMisses(records[|old(records)|..], traces)
      // every record is backed by a trace, and every file accounted for
      ensures ok ==> Backed(config, build, answers, old(volume.entries), old(StatesOf(volume.files)),
                            StatesOf(volume.files), Removal.Select(old(volume.entries), listing, false),
                            volume.stuck, old(records), records, traces, starts)
      // a complete listing of files and directories, no refusals, no failed overwrite: the whole tree goes
      ensures ok && volume.stuck == {} && NoFailedOverwrite(records[|old(records)|..])
              && Removal.Complete(old(volume.entries), dir, listing) ==>
                Removal.Gone(old(volume.entries), volume.entries, dir)
    {
      afterFiles, traces, starts := volume.entries, [], [];
      if !IsDirectory(volume.entries, dir) { return false, afterFiles, traces, starts; }
      afterFiles, traces, starts := ShredListed(volume, dir, listing, answers);
      WholeDirectoryGone(old(volume.entries), afterFiles, volume.entries, dir, listing, volume.stuck,
                         records[|old(records)|..], traces, answers);
      return true, afterFiles, traces, starts;
    }

    /** shred_file as the whole of a call of shred. */
    method ShredAlone(volume: Volume, path: Path, answers: nat -> Answers)
      returns (ok: bool, ghost traces: seq<Trace>, ghost starts: seq<FileState>)
      requires volume.Valid() && path != [] && config.bufferSize > 0
      modifies this`records, volume`entries, volume`faults, volume.files
      ensures volume.Valid()
      ensures old(records) <= records && |records| == |old(records)| + 1 && |traces| == 1
      ensures Sound(config, records[|old(records)|])
      ensures ok <==> Succeeded(records[|old(records)|].status)
      ensures records[|old(records)|].status.SkippedNotRegularFile? <==> !IsRegular(old(volume.entries), path)
      ensures Backed(config, build, answers, old(volume.entries), old(StatesOf(volume.files)), StatesOf(volume.files),
                     [path], volume.stuck, old(records), records, traces, starts)
      ensures volume.entries == TreeAfter(old(volume.entries), volume.stuck, records[|old(records)|..], traces, answers)
      ensures volume.faults == old(volume.faults) + RunMisses(records[|old(records)|..], traces)
    {
      ghost var rec, t, start;
      ok, rec, t, start := ShredTracked(volume, path, answers, 0);
      traces, starts := [t], [start];
      OneRecorded(config, Backing(config, build, answers), Account(config, build, answers), answers,
                  old(volume.entries), old(StatesOf(volume.files)), StatesOf(volume.files), path, volume.stuck,
                  old(records), rec, t, start);
      assert records[|old(records)|..] == [rec];
    }

    /** shred of a directory with --recursive, in terms of the listing and the old tree alone. */
    method ShredTree(volume: Volume, dir: Path, listing: seq<Path>, answers: nat -> Answers)
      returns (ok: bool, ghost traces: seq<Trace>, ghost starts: seq<FileState>)
      requires volume.Valid() && dir != [] && config.bufferSize > 0 && IsDirectory(volume.entries, dir)
      requires Removal.PreOrder(listing)
      requires forall p :: p in listing ==> Below(dir, p)
      modifies this`records, volume`entries, volume`faults, volume.files
      ensures volume.Valid() && ok && |old(records)| <= |records|
      ensures Backed(config, build, answers, old(volume.entries), old(StatesOf(volume.files)), StatesOf(volume.files),
                     Removal.Select(old(volume.entries), listing, false), volume.stuck,
                     old(records), records, traces, starts)
      ensures |traces| == |records[|old(records)|..]|
      ensures volume.entries == TreeLeft(config.(recursive := true), old(volume.entries), dir, listing, volume.stuck,
                                         records[|old(records)|..], traces, answers)
      ensures volume.faults == old(volume.faults) + RunMisses(records[|old(records)|..], traces)
      // exactly one new record per regular file of the listing
      ensures forall p :: p in listing && IsRegular(old(volume.entries), p) <==>
                          exists i :: |old(records)| <= i < |records| && records[i].target == p
      ensures forall i, j :: |old(records)| <= i < j < |records| ==> records[i].target != records[j].target
      // each of these files reads as zero, or its record says that the overwrite failed
      ensures var files := Removal.Select(old(volume.entries), listing, false);
        ZeroEnding(config)
        && (forall i, j :: 0 <= i < j < |files| && |files[i]| > 0 ==>
              files[j] !in Masks(files[i], answers(i).nonce)) ==>
        forall p :: p in listing && IsRegular(old(volume.entries), p) ==>
          || (exists i :: |old(records)| <= i < |records| && records[i].target == p
                          && records[i].status.FailedOverwrite?)
          || ReadsZeroTo(old(volume.entries[p].file.length), StateOf(old(volume.entries)[p].file))
      // a complete listing of files and directories, no refusals, no failed overwrite: the whole tree goes
      ensures volume.stuck == {}
              && (forall i :: |old(records)| <= i < |records| ==> !records[i].status.FailedOverwrite?)
              && (forall p :: p in old(volume.entries) && dir < p ==>
                    p in listing && !old(volume.entries)[p].Special?) ==>
                forall p :: p in volume.entries <==> p in old(volume.entries) && !(dir <= p)
    {
      ghost var afterFiles;
      ok, afterFiles, traces, starts := ShredDirectory(volume, dir, listing, answers);
      OneRecordEach(config, old(volume.entries), listing, old(records), records);
      if ZeroEnding(config) && Unmasked(Removal.Select(old(volume.entries), listing, false), answers) {
        ListedZeroed(config, build, answers, old(volume.entries), old(StatesOf(volume.files)), StatesOf(volume.files),
                     listing, volume.stuck, old(records), records, traces, starts);
      }
    }

    /** shred: a directory only with --recursive, anything else as a file. Over any sequence of
        calls records are append-only and the audit trail stays sound. */
    method Shred(volume: Volume, path: Path, listing: seq<Path>, answers: nat -> Answers)
      returns (ok: bool, ghost traces: seq<Trace>, ghost starts: seq<FileState>)
      requires volume.Valid() && path != [] && config.bufferSize > 0
      requires Removal.PreOrder(listing)
      requires forall p :: p in listing ==> Below(path, p)
      modifies this`records, volume`entries, volume`faults, volume.files
      ensures volume.Valid()
      ensures old(records) <= records
      ensures old(AuditSound()) ==> AuditSound()
      // every record is backed by a trace, and every file accounted for
      ensures Backed(config, build, answers, old(volume.entries), old(StatesOf(volume.files)), StatesOf(volume.files),
                     Targets(config, old(volume.entries), path, listing), volume.stuck,
                     old(records), records, traces, starts)
      ensures |traces| == |records[|old(records)|..]|
      ensures volume.entries == TreeLeft(config, old(volume.entries), path, listing, volume.stuck,
                                         records[|old(records)|..], traces, answers)
      ensures volume.faults == old(volume.faults) + RunMisses(records[|old(records)|..], traces)
      ensures IsDirectory(old(volume.entries), path) ==> ok == config.recursive
      ensures IsDirectory(old(volume.entries), path) && !config.recursive ==>
                records == old(records) && volume.entries == old(volume.entries)
      ensures !IsDirectory(old(volume.entries), path) ==>
                |records| == |old(records)| + 1 && (ok <==> Succeeded(records[|old(records)|].status))
                && records[|old(records)|].target == path
                && (records[|old(records)|].status.SkippedNotRegularFile? <==> !IsRegular(old(volume.entries), path))
      // a directory with --recursive: exactly one new record per regular file of the listing
      ensures IsDirectory(old(volume.entries), path) && config.recursive ==>
        && (forall p :: p in listing && IsRegular(old(volume.entries), p) <==>
                        exists i :: |old(records)| <= i < |records| && records[i].target == p)
        && (forall i, j :: |old(records)| <= i < j < |records| ==> records[i].target != records[j].target)
      // each of these files reads as zero, or its record says that the overwrite failed
      ensures var files := Removal.Select(old(volume.entries), listing, false);
        IsDirectory(old(volume.entries), path) && config.recursive && ZeroEnding(config)
        && (forall i, j :: 0 <= i < j < |files| && |files[i]| > 0 ==>
              files[j] !in Masks(files[i], answers(i).nonce)) ==>
        forall p :: p in listing && IsRegular(old(volume.entries), p) ==>
          || (exists i :: |old(records)| <= i < |records| && records[i].target == p
                          && records[i].status.FailedOverwrite?)
          || ReadsZeroTo(old(volume.entries[p].file.length), StateOf(old(volume.entries)[p].file))
      // a complete listing, no refusals, no failed overwrite: the whole tree goes and nothing else
      ensures IsDirectory(old(volume.entries), path) && config.recursive && volume.stuck == {}
              && (forall i :: |old(records)| <= i < |records| ==> !records[i].status.FailedOverwrite?)
              && (forall p :: p in old(volume.entries) && path < p ==>
                    p in listing && !old(volume.entries)[p].Special?) ==>
                forall p :: p in volume.entries <==> p in old(volume.entries) && !(path <= p)
    {
      traces, starts := [], [];
      if IsDirectory(volume.entries, path) {
        if !config.recursive { return false, traces, starts; }
        ok, traces, starts := ShredTree(volume, path, listing, answers);
        AppendedSound(config, old(records), records, Targets(config, old(volume.entries), path, listing));
      } else {
        ok, traces, starts := ShredAlone(volume, path, answers);
      }
    }
  }

  /** The declined tail on the code itself: shredding a non-empty file on btrfs with zeros, when no
      call fails, the file can be read back and its last name can be removed, always ends in
      SUCCESS_VERIFIED with the tail in place. */
  method VerifiedOnBtrfs(shredder: FileShredder, volume: Volume, path: Path, answers: Answers)
    returns (ok: bool, ghost rec: AuditRecord)
    requires volume.Valid() && path != [] && shredder.config.bufferSize > 0 && IsRegular(volume.entries, path)
    requires shredder.build.PosixBuild? && ZeroEnding(shredder.config) && volume.entries[path].file.length > 0
    requires answers.posix.opens && answers.posix.statOk && answers.posix.IsCow()
    requires answers.session.opens && volume.entries[path].file.length <= answers.session.readable
    requires Masks(path, answers.nonce)[2] !in volume.stuck
    modifies shredder`records, volume`entries, volume`faults, volume.entries[path].file
    ensures shredder.records == old(shredder.records) + [rec]
    ensures Completed(rec.status) ==> !rec.slack.eliminated && rec.slack.bytesOverwritten == 0
    ensures volume.faults == old(volume.faults) ==>
              old(volume.entries)[path].file.faults == old(volume.entries[path].file.faults) ==>
                ok && rec.status.SuccessVerified?
  {
    ghost var file := volume.entries[path].file;
    ghost var t;
    ok, rec, t := shredder.ShredFile(volume, path, answers);
    ghost var run := RunOf(shredder.config, answers, t, old(StateOf(file)));
    if Completed(rec.status) {
      VerifiedTailIff(shredder.config, shredder.build, answers, rec, t, run);
      ZeroEndToEnd(shredder.config, shredder.build, answers, rec, t, run);
    }
  }

  /** The bytes on the code itself, under any faults: after a call that got past the overwrite the payload
      reads as zero if a discard was accepted, and otherwise as what the last pass lays; after a slack
      success the final pattern follows, up to the unit boundary. */
  method BytesAfterShred(shredder: FileShredder, volume: Volume, path: Path, answers: Answers)
    returns (ok: bool, ghost rec: AuditRecord)
    requires volume.Valid() && path != [] && shredder.config.bufferSize > 0 && IsRegular(volume.entries, path)
    modifies shredder`records, volume`entries, volume`faults, volume.entries[path].file
    ensures shredder.records == old(shredder.records) + [rec] && !rec.status.SkippedNotRegularFile?
    ensures var config, now := shredder.config, StateOf(old(volume.entries)[path].file);
      var size := old(volume.entries[path].file.length);
      Completed(rec.status) && PassCount(config) > 0 ==>
        && size <= |now.cache|
        && (forall o :: 0 <= o < size ==>
              now.cache[o] == if rec.trim.invoked then 0x00 else LastByte(config, answers.draws, size, o))
    ensures var config, now := shredder.config, StateOf(old(volume.entries)[path].file);
      var size, end := old(volume.entries[path].file.length), Vouched(old(volume.entries[path].file.length), rec.slack);
      Completed(rec.status) && Slack.IsSuccess(rec.slack.status) && !rec.trim.invoked ==>
        && size <= end <= |now.cache|
        && now.cache[size..end] == Cycle(if ZeroEnding(config) then [0x00] else answers.noise, end - size)
  {
    ghost var file := volume.entries[path].file;
    ghost var start := StateOf(file);
    ghost var t;
    ok, rec, t := shredder.ShredFile(volume, path, answers);
    if Completed(rec.status) {
      BytesLeft(shredder.config, shredder.build, answers, rec, t, start, StateOf(file));
    }
  }

  /** The ordinary case on the code itself: with a method that ends in zeros and nothing in the way of
      the slack run, a call in which nothing fails, on a file that can be read back and removed, ends in
      SUCCESS_VERIFIED with the slack eliminated, and every byte up to the unit boundary is zero in the
      file and, when the discard was accepted, was zero on the medium. */
  method ZeroedToBoundary(shredder: FileShredder, volume: Volume, path: Path, answers: Answers)
    returns (ok: bool, ghost rec: AuditRecord)
    requires volume.Valid() && path != [] && shredder.config.bufferSize > 0 && IsRegular(volume.entries, path)
    requires ZeroEnding(shredder.config)
    requires TailObstacle(shredder.build, answers, volume.entries[path].file.length, [0]).None?
    requires answers.session.opens && volume.entries[path].file.length <= answers.session.readable
    requires Masks(path, answers.nonce)[2] !in volume.stuck
    modifies shredder`records, volume`entries, volume`faults, volume.entries[path].file
    ensures shredder.records == old(shredder.records) + [rec]
    ensures var file := old(volume.entries)[path].file;
      file.faults == old(volume.entries[path].file.faults) ==>
        && Succeeded(rec.status) && ok && rec.slack.eliminated && rec.slack.unitSize > 0
        && (volume.faults == old(volume.faults) ==> rec.status.SuccessVerified?)
        && var end := Slack.Boundary(old(volume.entries[path].file.length), rec.slack.unitSize);
           && ReadsZeroTo(end, StateOf(file))
           && end <= |Held(StateOf(file), rec)| && AllEqual(Held(StateOf(file), rec)[..end], 0)
  {
    ghost var file := volume.entries[path].file;
    ghost var start := StateOf(file);
    ghost var t;
    ok, rec, t := shredder.ShredFile(volume, path, answers);
    if file.faults == old(volume.entries[path].file.faults) {
      OrdinaryCall(shredder.config, shredder.build, answers, rec, t, start, StateOf(file));
    }
  }

  /** A whole directory on the code itself: with a method that ends in zeros and no listed file that
      bears a mask of an earlier one, every listed file reads as zero afterwards, whatever its name
      came to, or its record says that the overwrite failed. */
  method DirectoryZeroed(shredder: FileShredder, volume: Volume, dir: Path, listing: seq<Path>,
                         answers: nat -> Answers) returns (ok: bool)
    requires volume.Valid() && dir != [] && shredder.config.bufferSize > 0 && IsDirectory(volume.entries, dir)
    requires Removal.PreOrder(listing) && forall p :: p in listing ==> Below(dir, p)
    requires ZeroEnding(shredder.config) && Unmasked(Removal.Select(volume.entries, listing, false), answers)
    modifies shredder`records, volume`entries, volume`faults, volume.files
    ensures ok
    ensures var n, files := |old(shredder.records)|, Removal.Select(old(volume.entries), listing, false);
      |shredder.records| == n + |files| && forall i :: 0 <= i < |files| ==>
        && shredder.records[n + i].target == files[i] && IsRegular(old(volume.entries), files[i])
        && (shredder.records[n + i].status.FailedOverwrite?
            || ReadsZeroTo(old(volume.entries[files[i]].file.length), StateOf(old(volume.entries)[files[i]].file)))
  {
    ghost var afterFiles, traces, starts;
    ghost var files := Removal.Select(volume.entries, listing, false);
    Removal.SelectKeepsOrder(volume.entries, listing, false);
    forall p | p in files
      ensures IsRegular(volume.entries, p)
    {
      Removal.SelectExactly(volume.entries, listing, false, p);
    }
    ok, afterFiles, traces, starts := shredder.ShredDirectory(volume, dir, listing, answers);
    EveryFileZeroed(shredder.config, shredder.build, answers, old(volume.entries), old(StatesOf(volume.files)),
                    StatesOf(volume.files), files, volume.stuck, old(shredder.records), shredder.records,
                    traces, starts);
  }

  /** The loss on the code itself: in a directory of two files, the second is skipped, with its bytes
      in place, exactly if a masking rename of the first ran over it. Without failing renames that is
      so exactly if it bears a mask of the first; shred_directory returns true either way. */
  method SiblingRunOver(shredder: FileShredder, volume: Volume, dir: Path, a: string, b: string,
                        answers: nat -> Answers)
    returns (ok: bool, ghost traces: seq<Trace>)
    requires volume.Valid() && dir != [] && shredder.config.bufferSize > 0 && a != b && dir + [b] !in volume.stuck
    requires IsDirectory(volume.entries, dir)
    requires IsRegular(volume.entries, dir + [a]) && IsRegular(volume.entries, dir + [b])
    modifies shredder`records, volume`entries, volume`faults, volume.files
    ensures ok && |traces| == 2 && |shredder.records| == |old(shredder.records)| + 2
    ensures var n := |old(shredder.records)|;
      var first, second := shredder.records[n], shredder.records[n + 1];
      var lost := RanOver(first, answers(0).nonce, traces[0].moved, dir + [b]);
      && (second.status.SkippedNotRegularFile? <==> lost)
      && (Completed(first.status) && volume.faults == old(volume.faults) ==>
            (lost <==> dir + [b] in Masks(dir + [a], answers(0).nonce)))
      && (lost ==> old(volume.entries)[dir + [b]].file in volume.files
                   && StatesOf(volume.files)[old(volume.entries)[dir + [b]].file]
                   == old(StatesOf(volume.files)[volume.entries[dir + [b]].file]))
  {
    ghost var afterFiles, starts;
    var listing := [dir + [a], dir + [b]];
    assert (dir + [a])[|dir|] != (dir + [b])[|dir|];
    Removal.SelectAll(volume.entries, listing);
    ok, afterFiles, traces, starts := shredder.ShredDirectory(volume, dir, listing, answers);
    PairSkippedIff(Account(shredder.config, shredder.build, answers), answers, old(volume.entries),
                   old(StatesOf(volume.files)), StatesOf(volume.files), dir + [a], dir + [b], volume.stuck,
                   shredder.records[|old(shredder.records)|..], traces);
  }
}
