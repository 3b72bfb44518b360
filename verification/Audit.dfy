/** The audit record of one shred_file call, the trace of what happened below it, and what the two
    say together. */
module Audit {
  import opened Bytes
  import opened Passes
  import opened Store
  import opened Namespace
  import opened Overwrite
  import opened Verifiers
  import Entropy
  import Slack
  import SlackPosix
  import SlackWin32
  import Discard

  datatype Build = PosixBuild | Win32Build

  type NoiseBlock = s: seq<Byte> | |s| == 512 witness seq(512, _ => 0)

  /** What the environment answers during one shred_file call: the random draws and the answers
      to queries. Faults of the calls that change the file are chosen in module Store. */
  datatype Answers = Answers(draws: Draws, noise: NoiseBlock, nonce: Nonce, session: ReadFaults,
                             posix: SlackPosix.Probe, win32: SlackWin32.Probe, discardOpens: bool)

  datatype Verification = NoVerification | ByteZeroCheck | ShannonEntropyCheck

  datatype Status =
    | Pending | SkippedNotRegularFile | FailedOverwrite | FailedVerification | SuccessWithWarnings | SuccessVerified

  datatype AuditRecord = AuditRecord(
    target: Path, fileSize: nat, passesCompleted: Uint32,
    slack: Slack.SlackResult, trim: Discard.DiscardResult,
    verification: Verification, verified: bool, scrubbed: bool, status: Status)

  const BLANK: AuditRecord := AuditRecord([], 0, 0, Slack.UNTOUCHED,
    Discard.DiscardResult(false, Discard.NotAttempted), NoVerification, false, false, Pending)

  /** What happened below the record during one call. */
  datatype Trace = Trace(
    order: seq<seq<Byte>>,   // the shuffle drawn
    done: nat, cut: nat,     // passes completed; cut of a failing one
    laid: seq<Byte>,         // payload when the passes were over
    flushed: bool,           // the flush before verification succeeded
    trimSynced: bool,        // the sync of the discard step succeeded
    media: seq<Byte>,        // the medium when the discard was accepted, or as left if it was not
    moved: seq<bool>)        // which renames of the scrub succeeded

  /** get_final_pass_pattern. */
  function FinalPassPattern(config: Config, noise: NoiseBlock): (p: seq<Byte>)
    ensures |p| > 0
  {
    match config.kind
    case NistClear | ZeroOnly => [0x00]
    case Dod522022M => noise
    case PrngCustom => if config.zeroFill then [0x00] else noise
    case Gutmann => noise
  }

  /** The slack pattern is the single byte 0 exactly when the byte check is chosen, and exactly
      when the last pass of a non-empty schedule is constant zero. */
  lemma SlackPatternAgreement(config: Config, noise: NoiseBlock, order: seq<seq<Byte>>)
    requires Shuffled(order)
    ensures FinalPassPattern(config, noise) == [0] <==> ZeroEnding(config)
    ensures ZeroEnding(config) || FinalPassPattern(config, noise) == noise
    ensures ZeroEnding(config) <==> config.kind.NistClear? || config.kind.ZeroOnly?
                                    || (config.kind.PrngCustom? && config.zeroFill)
    ensures var plan := Plan(config, order);
      |plan| > 0 ==> (plan[|plan| - 1] == Constant(0) <==> FinalPassPattern(config, noise) == [0])
  {
    ScheduleAgreement(config, order);
  }

  /** The whole payload passed the check that its method calls for, on what could be read. */
  ghost predicate PassesCheck(config: Config, payload: seq<Byte>, session: ReadFaults) {
    var size := |payload|;
    if ZeroEnding(config) then size == 0 || (session.opens && size <= session.readable && AllEqual(payload, 0))
    else PassesEntropy(payload, session, size)
  }

  /** The bytes that slack elimination vouches for. */
  function Vouched(size: nat, slack: Slack.SlackResult): nat {
    if Slack.IsSuccess(slack.status) && slack.unitSize > 0 then Slack.Boundary(size, slack.unitSize) else size
  }

  /** What the medium holds just before the discard takes effect: the payload that the passes laid,
      if it was synced outside the slack step, and behind it the pattern up to the unit boundary,
      if slack succeeded. */
  ghost predicate MediaHolds(media: seq<Byte>, payload: seq<Byte>, synced: bool, slack: Slack.SlackResult,
                             pattern: seq<Byte>)
    requires |pattern| > 0
  {
    var size, end := |payload|, Vouched(|payload|, slack);
    && (synced ==> size <= |media| && media[..size] == payload)
    && (Slack.IsSuccess(slack.status) ==> end <= |media| && media[..end] == payload + Cycle(pattern, end - size))
  }

  /** What is on the medium already is not changed by write-back. */
  lemma WrittenBackStays(cache: seq<Byte>, media: seq<Byte>, later: seq<Byte>, end: nat)
    requires Discard.OnlyWrittenBack(cache, media, later)
    ensures end <= |cache| && media[..end] == cache[..end] ==> later[..end] == cache[..end]
  {
    if end <= |cache| && media[..end] == cache[..end] {
      forall i | 0 <= i < end
        ensures later[i] == cache[i]
      {
        assert media[i] == media[..end][i] == cache[..end][i];
      }
    }
  }

  lemma SyncedPayload(cache: seq<Byte>, media: seq<Byte>, size: nat, length: nat)
    requires size <= length <= |cache| == |media|
    ensures media[..length] == cache[..length] ==> media[..size] == cache[..size]
  {
    assert media[..length][..size] == media[..size] && cache[..length][..size] == cache[..size];
  }

  /** A medium that agreed with the file where a sync succeeded before the discard step holds what
      the file read as; so does one synced by that step. */
  lemma MediumFits(payload: seq<Byte>, pattern: seq<Byte>, slack: Slack.SlackResult, flushed: bool, trimSynced: bool,
                   cache: seq<Byte>, media: seq<Byte>, held: seq<Byte>, length: nat)
    requires |pattern| > 0 && |payload| <= length <= |cache| && cache[..|payload|] == payload
    requires Discard.OnlyWrittenBack(cache, media, held)
    requires flushed ==> media[..|payload|] == cache[..|payload|]
    requires trimSynced ==> held[..length] == cache[..length]
    requires var end := Vouched(|payload|, slack);
      Slack.IsSuccess(slack.status) ==> end <= |cache| && media[..end] == cache[..end]
                                        && cache[..end] == payload + Cycle(pattern, end - |payload|)
    ensures MediaHolds(held, payload, flushed || trimSynced, slack, pattern)
  {
    WrittenBackStays(cache, media, held, |payload|);
    WrittenBackStays(cache, media, held, Vouched(|payload|, slack));
    SyncedPayload(cache, held, |payload|, length);
  }

  /** Slack counts as dealt with when eliminated or skipped for any reason. */
  predicate SlackOk(r: Slack.SlackResult) {
    r.eliminated || r.status.Skipped?
  }

  /** The record of a call that got past the overwrite: its status says no more and no less
      than its fields. */
  predicate Concluded(rec: AuditRecord) {
    && (rec.status.FailedVerification? <==> !rec.verified)
    && (rec.status.SuccessVerified? <==> rec.verified && rec.scrubbed && SlackOk(rec.slack))
    && (rec.status.SuccessWithWarnings? <==> rec.verified && !(rec.scrubbed && SlackOk(rec.slack)))
  }

  /** The system declines in advance to have the tail of a non-empty file overwritten: a
      copy-on-write filesystem, or on Win32 a compressed, sparse or encrypted file. */
  predicate TailDeclined(build: Build, answers: Answers, size: nat) {
    && size > 0
    && match build
       case PosixBuild => answers.posix.Declines()
       case Win32Build => answers.win32.Declines()
  }

  /** What keeps the build from running over the tail, if anything does. */
  function TailObstacle(build: Build, answers: Answers, size: nat, pattern: seq<Byte>): Option<Slack.SlackResult> {
    match build
    case PosixBuild => SlackPosix.Obstacle(answers.posix, size, pattern)
    case Win32Build => SlackWin32.Obstacle(answers.win32, size, pattern)
  }

  /** An obstacle decides the slack result; without one the run takes place. */
  predicate SlackFits(obstacle: Option<Slack.SlackResult>, r: Slack.SlackResult) {
    match obstacle
    case Some(result) => r == result
    case None => Slack.Ran(r.status)
  }

  /** The slack step of either build: an obstacle decides the result and nothing changes; without
      one the run takes place, and succeeds if no call fails. */
  ghost predicate SlackStep(obstacle: Option<Slack.SlackResult>, r: Slack.SlackResult, size: nat, pattern: seq<Byte>,
                            before: FileState, after: FileState, shrinkFailed: bool, faulty: bool)
    requires |pattern| > 0
  {
    && size <= |before.cache|
    && (obstacle.Some? ==> r == obstacle.value && after.cache == before.cache && after.media == before.media
                           && after.length == size)
    && (obstacle.None? ==> Slack.Ran(r.status) && r.unitSize > 0 && (!faulty ==> Slack.IsSuccess(r.status))
                           && Slack.TailLeft(Slack.FailedStep(r.status), before.cache, after.cache, after.media, size,
                                             after.length, r.unitSize, pattern, shrinkFailed))
  }

  /** Where the bytes end that the slack step may have written. */
  function Reach(size: nat, slack: Slack.SlackResult): nat {
    if Slack.Ran(slack.status) && slack.unitSize > 0 then Slack.Boundary(size, slack.unitSize) else size
  }

  /** `whole` from the start, the old bytes from `reach` on, and zeros instead of either below
      `zeroed`. */
  ghost predicate ReadsAs(whole: seq<Byte>, reach: nat, zeroed: nat, before: seq<Byte>, after: seq<Byte>) {
    && |whole| <= |after| && |before| <= |after|
    && forall i :: 0 <= i < |after| && (i < |whole| || reach <= i < |before|) ==>
         after[i] == if i < zeroed then 0 else if i < |whole| then whole[i] else before[i]
  }

  /** What a completed call leaves in its file: the payload laid, behind it the slack pattern after
      a slack success, the old bytes from there on, and zeros wherever a discard was accepted. The
      length is back unless the slack step says otherwise. */
  ghost predicate FileLeft(config: Config, build: Build, answers: Answers, rec: AuditRecord, laid: seq<Byte>,
                           before: seq<Byte>, now: FileState)
  {
    var size, pattern := |laid|, FinalPassPattern(config, answers.noise);
    && ReadsAs(laid + Cycle(pattern, Vouched(size, rec.slack) - size), Reach(size, rec.slack),
               if rec.trim.invoked then DiscardEnd(build, answers.win32.clusterSize, size) else 0, before, now.cache)
    && (now.length == size || (now.length == Reach(size, rec.slack) && !rec.slack.eliminated))
  }

  /** The slack step leaves what it should behind the payload. */
  lemma SlackReads(obstacle: Option<Slack.SlackResult>, r: Slack.SlackResult, size: nat, pattern: seq<Byte>,
                   before: FileState, after: FileState, shrinkFailed: bool, faulty: bool)
    requires |pattern| > 0 && SlackStep(obstacle, r, size, pattern, before, after, shrinkFailed, faulty)
    requires obstacle.Some? ==> !Slack.Ran(obstacle.value.status)
    requires Slack.Honest(r, size)
    ensures ReadsAs(before.cache[..size] + Cycle(pattern, Vouched(size, r) - size), Reach(size, r), 0,
                    before.cache, after.cache)
    ensures after.length == size || (after.length == Reach(size, r) && !r.eliminated)
  {
  }

  /** The discard step on top. */
  lemma DiscardReads(whole: seq<Byte>, reach: nat, zeroed: nat, before: seq<Byte>, cache: seq<Byte>, after: seq<Byte>)
    requires ReadsAs(whole, reach, 0, before, cache) && |after| == |cache|
    requires forall i :: 0 <= i < |after| ==> after[i] == if i < zeroed then 0 else cache[i]
    ensures ReadsAs(whole, reach, zeroed, before, after)
  {
  }

  /** Old bytes matter behind the payload only. */
  lemma FileLeftFromStart(config: Config, build: Build, answers: Answers, rec: AuditRecord, laid: seq<Byte>,
                          start: seq<Byte>, before: seq<Byte>, now: FileState)
    requires FileLeft(config, build, answers, rec, laid, before, now) && |start| == |before|
    requires forall i :: |laid| <= i < |start| ==> start[i] == before[i]
    ensures FileLeft(config, build, answers, rec, laid, start, now)
  {
  }

  /** Steps 2 to 5 on a payload: the verdict, the slack claim and the medium all fit it. */
  ghost predicate Handled(config: Config, build: Build, answers: Answers, rec: AuditRecord, payload: seq<Byte>,
                          synced: bool, media: seq<Byte>)
  {
    && rec.verification == (if ZeroEnding(config) then ByteZeroCheck else ShannonEntropyCheck)
    && (rec.verified <==> PassesCheck(config, payload, answers.session))
    && Slack.Honest(rec.slack, |payload|)
    && (Slack.LeftInPlace(rec.slack.status) <==> TailDeclined(build, answers, |payload|))
    && SlackFits(TailObstacle(build, answers, |payload|, FinalPassPattern(config, answers.noise)), rec.slack)
    && MediaHolds(media, payload, synced, rec.slack, FinalPassPattern(config, answers.noise))
  }

  /** What follows for those steps if no call fails: the payload was flushed, the slack run, if
      nothing kept it from running, succeeded, and so did the discard. */
  predicate Undisturbed(config: Config, build: Build, answers: Answers, rec: AuditRecord, size: nat,
                        flushed: bool, trimSynced: bool)
  {
    && flushed
    && (TailObstacle(build, answers, size, FinalPassPattern(config, answers.noise)).None? ==>
          Slack.IsSuccess(rec.slack.status))
    && (answers.discardOpens && size > 0 ==> rec.trim.invoked && trimSynced)
  }

  /** The record and the trace of a call that got past the overwrite, up to the scrub. */
  ghost predicate Treated(config: Config, build: Build, answers: Answers, rec: AuditRecord, t: Trace, run: Run) {
    && run.Valid() && Shuffled(t.order) && run.plan == Plan(config, t.order)
    && t.done == (if run.size == 0 then 0 else |run.plan|)
    && t.laid == run.After(t.done)
    && rec.fileSize == run.size && rec.passesCompleted == t.done % TWO_TO_THE_32
    && Handled(config, build, answers, rec, t.laid, t.flushed || t.trimSynced, t.media)
  }

  /** The same at the end of the call. */
  ghost predicate Sanitized(config: Config, build: Build, answers: Answers, rec: AuditRecord, t: Trace, run: Run) {
    Treated(config, build, answers, rec, t, run) && Concluded(rec)
  }

  /** Zeros on the medium: up to the unit boundary after a slack success, over the payload after
      any successful sync. */
  ghost predicate ZeroOnMedia(size: nat, slack: Slack.SlackResult, synced: bool, media: seq<Byte>) {
    var end := Vouched(size, slack);
    && (size > 0 && Slack.IsSuccess(slack.status) ==> end <= |media| && AllEqual(media[..end], 0))
    && (synced ==> size <= |media| && AllEqual(media[..size], 0))
  }

  /** End to end for methods that end in zeros, when the discard is accepted, or at the end if it
      is not: every byte of the payload is 0 on the medium if any of the three syncs succeeded, and
      every byte up to the unit boundary if that was the one of a slack success. The call succeeds
      exactly when the file can be read back in full. */
  lemma ZeroEndToEnd(config: Config, build: Build, answers: Answers, rec: AuditRecord, t: Trace, run: Run)
    requires Sanitized(config, build, answers, rec, t, run) && ZeroEnding(config)
    ensures ZeroOnMedia(run.size, rec.slack, t.flushed || t.trimSynced, t.media)
    ensures Succeeded(rec.status) <==>
            run.size == 0 || (answers.session.opens && run.size <= answers.session.readable)
  {
    ZeroEndingLeavesZeros(run, config, t.order);
    assert AllEqual(t.laid, 0);
    if Slack.IsSuccess(rec.slack.status) {
      var end := Vouched(run.size, rec.slack);
      var tail := Cycle(FinalPassPattern(config, answers.noise), end - run.size);
      forall i | 0 <= i < end
        ensures t.media[i] == 0
      {
        assert t.media[i] == t.media[..end][i] == (t.laid + tail)[i];
      }
    }
  }

  /** End to end for methods that end in noise: success means that the bytes read back hold at
      least 128 or 223 distinct values, so no file of 1 to 127 bytes ever succeeds. */
  lemma NoiseEndToEnd(config: Config, build: Build, answers: Answers, rec: AuditRecord, t: Trace, run: Run)
    requires Sanitized(config, build, answers, rec, t, run)
    ensures !ZeroEnding(config) && Succeeded(rec.status) && run.size > 0 ==>
              && |Entropy.Distinct(ReadPrefix(t.laid, answers.session, run.size))| >= Entropy.Variety(run.size)
              && |Entropy.Distinct(t.laid)| >= Entropy.Variety(run.size)
              && run.size >= Entropy.Variety(run.size) >= 128
  {
    if !ZeroEnding(config) && Succeeded(rec.status) && run.size > 0 {
      var read := ReadPrefix(t.laid, answers.session, run.size);
      Entropy.AcceptanceCertifiesVariety(read, run.size);
      Entropy.DistinctBound(read);
      assert Entropy.Distinct(read) <= Entropy.Distinct(t.laid);
      Entropy.SubsetSize(Entropy.Distinct(read), Entropy.Distinct(t.laid));
    }
  }

  /** SUCCESS_VERIFIED promises that the slack was dealt with exactly where the system did not
      decline it in advance; where it did, the tail stays and the status does not suffer. */
  lemma VerifiedTailIff(config: Config, build: Build, answers: Answers, rec: AuditRecord, t: Trace, run: Run)
    requires Sanitized(config, build, answers, rec, t, run)
    ensures rec.status.SuccessVerified? ==> (rec.slack.eliminated <==> !TailDeclined(build, answers, run.size))
    ensures TailDeclined(build, answers, run.size) ==>
              && rec.slack.bytesOverwritten == 0
              && (rec.status.SuccessVerified? <==> rec.verified && rec.scrubbed)
  {
  }

  /** A file of one byte that holds `b`. */
  function OneByte(b: Byte): FileState {
    FileState([b], 1, [b], [])
  }

  /** A one-byte file that is zeroed, verified and scrubbed under a slack result that agrees with
      the answers ends in SUCCESS_VERIFIED. */
  lemma OneByteVerified(config: Config, build: Build, answers: Answers, path: Path, slack: Slack.SlackResult)
    returns (rec: AuditRecord, t: Trace, run: Run)
    requires config.kind.ZeroOnly? && config.bufferSize == 1
    requires answers.session == ReadFaults(true, 1) && Slack.Honest(slack, 1)
    requires TailObstacle(build, answers, 1, [0]) == Some(slack)
    requires slack.status.Skipped? && (Slack.LeftInPlace(slack.status) <==> TailDeclined(build, answers, 1))
    ensures Sanitized(config, build, answers, rec, t, run) && run.size == 1
    ensures rec.slack == slack && rec.status.SuccessVerified? && rec.target == path
    ensures run == RunOf(config, answers, t, OneByte(7)) && t.laid == [0] && t.moved == [true, true, true]
    ensures !rec.trim.invoked && !rec.trim.status.Punched? && t.media == [0]
  {
    run := Run([Constant(0x00)], 1, 1, answers.draws, [7]);
    t := Trace(GutmannPatterns(), 1, 0, run.After(1), false, false, [0], [true, true, true]);
    rec := BLANK.(target := path, fileSize := 1, passesCompleted := 1, slack := slack, verification := ByteZeroCheck,
                  verified := true, scrubbed := true, status := SuccessVerified);
    assert run.After(1) == [0];
    assert PassesCheck(config, t.laid, answers.session);
  }

  lemma OneByteAccounted(config: Config, build: Build, answers: Answers, rec: AuditRecord, t: Trace, now: FileState)
    requires Sanitized(config, build, answers, rec, t, RunOf(config, answers, t, OneByte(7)))
    requires t.laid == t.media == [0] && rec.slack == DeclinedResult(build) && rec.status.SuccessVerified?
    requires !rec.trim.invoked && !rec.trim.status.Punched? && now == FileState([0], 1, [0], [])
    ensures Sound(config, rec) && Accounted(config, build, answers, rec, t, OneByte(7), now)
  {
    SanitizedIsSound(config, build, answers, rec, t, RunOf(config, answers, t, OneByte(7)));
  }

  /** Answers under which a one-byte file is read back and its tail declined. */
  function Declining(): (a: Answers)
    ensures a.nonce == "100000"
  {
    var draw: Draw := [0, 0, 0, 0, 0, 0, 0, 0];
    var btrfs := SlackPosix.Statfs(SlackPosix.BTRFS_SUPER_MAGIC, 4096);
    var compressed := SlackWin32.Attributes(true, false, false);
    Answers((n: nat) => draw, seq(512, _ => 0), "100000", ReadFaults(true, 1),
      SlackPosix.Probe(true, true, 4096, Some(btrfs), SlackPosix.Extents(1, false)),
      SlackWin32.Probe("NTFS", Some(compressed), 4096, true, SlackWin32.HasExtents), true)
  }

  function DeclinedResult(build: Build): Slack.SlackResult {
    match build
    case PosixBuild => Slack.SlackResult(false, Slack.Skipped(Slack.CowFilesystem), Slack.UnknownMode, 0, 0)
    case Win32Build => Slack.SlackResult(false, Slack.Skipped(Slack.CompressedFile), Slack.Cluster, 0, 0)
  }

  /** On btrfs, or compressed on Win32, that leaves the tail in place. */
  lemma VerifiedTailInPlace(build: Build)
    returns (config: Config, answers: Answers, rec: AuditRecord, t: Trace, run: Run)
    ensures Sanitized(config, build, answers, rec, t, run) && run.size == 1
    ensures TailObstacle(build, answers, 1, [0]) == Some(rec.slack)
    ensures rec.status.SuccessVerified? && !rec.slack.eliminated
  {
    config, answers := Config(ZeroOnly, 1, true, 1, false), Declining();
    rec, t, run := OneByteVerified(config, build, answers, ["a"], DeclinedResult(build));
  }

  /** What every record of an audit trail promises on its own, whatever run produced it. */
  ghost predicate Sound(config: Config, rec: AuditRecord) {
    match rec.status
    case Pending => false
    case SkippedNotRegularFile => rec == BLANK.(target := rec.target, status := rec.status)
    case FailedOverwrite => rec == BLANK.(target := rec.target, fileSize := rec.fileSize, status := rec.status)
    case _ =>
      && Concluded(rec) && Slack.Honest(rec.slack, rec.fileSize)
      && (rec.trim.invoked <==> rec.trim.status.Punched?)
      && rec.passesCompleted == (if rec.fileSize == 0 then 0 else PassCount(config)) % TWO_TO_THE_32
      && rec.verification == (if ZeroEnding(config) then ByteZeroCheck else ShannonEntropyCheck)
      && (rec.verified && !ZeroEnding(config) && rec.fileSize > 0 ==> rec.fileSize >= Entropy.Variety(rec.fileSize))
  }

  lemma SanitizedIsSound(config: Config, build: Build, answers: Answers, rec: AuditRecord, t: Trace, run: Run)
    requires Sanitized(config, build, answers, rec, t, run) && (rec.trim.invoked <==> rec.trim.status.Punched?)
    requires !rec.status.Pending? && !rec.status.SkippedNotRegularFile? && !rec.status.FailedOverwrite?
    ensures Sound(config, rec)
  {
    ScheduleAgreement(config, t.order);
    NoiseEndToEnd(config, build, answers, rec, t, run);
  }

  predicate Succeeded(s: Status) {
    s.SuccessVerified? || s.SuccessWithWarnings?
  }

  /** Where the discarded range ends: POSIX punches the payload only, Win32 whole clusters. */
  function DiscardEnd(build: Build, clusterSize: nat, size: nat): nat {
    match build
    case PosixBuild => size
    case Win32Build => Discard.ClusterEnd(size, clusterSize)
  }

  // ----- one file of a run -----

  /** The bytes of a file, its length, and its medium now and at its last accepted discard. */
  datatype FileState = FileState(cache: seq<Byte>, length: nat, media: seq<Byte>, lastMedia: seq<Byte>)

  ghost function StateOf(file: File): FileState
    reads file
  {
    FileState(file.cache, file.length, file.media, file.lastMedia)
  }

  ghost function StatesOf(files: set<File>): (m: map<File, FileState>)
    reads files
    ensures m.Keys == files
  {
    map f | f in files :: StateOf(f)
  }

  /** The medium when the discard of this call was accepted, or as it is if there was none. */
  function Held(now: FileState, rec: AuditRecord): seq<Byte> {
    if rec.trim.invoked then now.lastMedia else now.media
  }

  /** The overwrite of a call that found its file in `start`. */
  ghost function RunOf(config: Config, answers: Answers, t: Trace, start: FileState): Run {
    var payload := start.cache[..Min(start.length, |start.cache|)];
    Run(Plan(config, t.order), start.length, config.bufferSize, answers.draws, payload)
  }

  /** The call got past the overwrite. */
  predicate Completed(s: Status) {
    s.FailedVerification? || Succeeded(s)
  }

  /** The renames that failed in one call. */
  function CallMisses(rec: AuditRecord, moved: seq<bool>): nat {
    if Completed(rec.status) && |moved| == 3 then Misses(moved) else 0
  }

  /** What a record and its trace say about a file that was found in `start` and is now in `now`. */
  ghost predicate Accounted(config: Config, build: Build, answers: Answers, rec: AuditRecord, t: Trace,
                            start: FileState, now: FileState)
  {
    var run := RunOf(config, answers, t, start);
    && (Completed(rec.status) ==>
          && Sanitized(config, build, answers, rec, t, run) && t.media == Held(now, rec)
          && FileLeft(config, build, answers, rec, t.laid, start.cache, now))
    && (rec.status.FailedOverwrite? ==>
          && Shuffled(t.order) && rec.fileSize == run.size == now.length
          && Explains(run, false, t.done, t.cut, start.cache, now.cache))
  }

  ghost predicate ReadsZeroTo(size: nat, now: FileState) {
    size <= |now.cache| && AllEqual(now.cache[..size], 0)
  }

  /** After a completed call with a method that ends in zeros the file reads as zero, discarded or
      not, and up to the unit boundary after a slack success. */
  lemma ReadsZero(config: Config, build: Build, answers: Answers, rec: AuditRecord, t: Trace, start: FileState,
                  now: FileState)
    requires Accounted(config, build, answers, rec, t, start, now) && Completed(rec.status) && ZeroEnding(config)
    ensures ReadsZeroTo(start.length, now) && ReadsZeroTo(Vouched(start.length, rec.slack), now)
  {
    ZeroEndingLeavesZeros(RunOf(config, answers, t, start), config, t.order);
    assert AllEqual(t.laid, 0) && FinalPassPattern(config, answers.noise) == [0];
    var end := Vouched(start.length, rec.slack);
    assert AllEqual(Cycle([0], end - start.length), 0);
    forall i | 0 <= i < end
      ensures now.cache[i] == 0
    {
    }
  }

  /** What the passes of a completed call left, byte by byte. */
  lemma LaidPayload(config: Config, build: Build, answers: Answers, rec: AuditRecord, t: Trace, start: FileState)
    requires Sanitized(config, build, answers, rec, t, RunOf(config, answers, t, start))
    requires start.length <= |start.cache|
    ensures |t.laid| == start.length && config.bufferSize > 0
    ensures forall o :: 0 <= o < start.length ==>
      t.laid[o] == if PassCount(config) == 0 then start.cache[o]
                   else LastByte(config, answers.draws, start.length, o)
  {
    var run := RunOf(config, answers, t, start);
    ScheduleAgreement(config, t.order);
    ShuffledPatterns(t.order);
    if run.size > 0 && PassCount(config) > 0 {
      forall o | 0 <= o < run.size
        ensures t.laid[o] == PassByte(config, t.order, answers.draws, run.size, PassCount(config) - 1, o)
      {
        LaidBytes(run, config, t.order, PassCount(config) - 1, o);
      }
      LastPassPayload(config, t.order, answers.draws, run.size, t.laid);
    }
  }

  /** A discard covers the payload. */
  lemma DiscardCovers(build: Build, clusterSize: nat, size: nat)
    ensures size <= DiscardEnd(build, clusterSize, size)
  {
    Discard.AlignedLengthIsBoundary(size, if clusterSize > 0 then clusterSize else 4096);
  }

  lemma PayloadLeft(config: Config, build: Build, answers: Answers, rec: AuditRecord, laid: seq<Byte>,
                    before: seq<Byte>, now: FileState)
    requires FileLeft(config, build, answers, rec, laid, before, now)
    ensures var pattern, end := FinalPassPattern(config, answers.noise), Vouched(|laid|, rec.slack);
      && |laid| <= end <= |now.cache|
      && (forall o :: 0 <= o < |laid| ==> now.cache[o] == if rec.trim.invoked then 0 else laid[o])
      && (!rec.trim.invoked ==> forall i :: |laid| <= i < end ==> now.cache[i] == pattern[(i - |laid|) % |pattern|])
  {
    DiscardCovers(build, answers.win32.clusterSize, |laid|);
    var pattern, end := FinalPassPattern(config, answers.noise), Vouched(|laid|, rec.slack);
    var whole := laid + Cycle(pattern, end - |laid|);
    forall i | 0 <= i < end
      ensures whole[i] == if i < |laid| then laid[i] else pattern[(i - |laid|) % |pattern|]
    {
    }
  }

  /** What a completed call leaves in its file, byte by byte: zeros where it was discarded; else the last
      pass over the payload, and after a slack success the final pattern up to the unit boundary. */
  lemma BytesLeft(config: Config, build: Build, answers: Answers, rec: AuditRecord, t: Trace, start: FileState,
                  now: FileState)
    requires Accounted(config, build, answers, rec, t, start, now) && Completed(rec.status)
    requires start.length <= |start.cache|
    ensures start.length <= |now.cache| && config.bufferSize > 0
    ensures forall o :: 0 <= o < start.length ==>
      now.cache[o] == if rec.trim.invoked then 0x00
                      else if PassCount(config) == 0 then start.cache[o]
                      else LastByte(config, answers.draws, start.length, o)
    ensures Slack.IsSuccess(rec.slack.status) && !rec.trim.invoked ==>
      var end := Vouched(start.length, rec.slack);
      start.length <= end <= |now.cache| && now.cache[start.length..end]
        == Cycle(if ZeroEnding(config) then [0x00] else answers.noise, end - start.length)
  {
    LaidPayload(config, build, answers, rec, t, start);
    PayloadLeft(config, build, answers, rec, t.laid, start.cache, now);
    SlackPatternAgreement(config, answers.noise, t.order);
  }

  /** A completed call in which nothing failed, with a method that ends in zeros, nothing in the way
      of the slack run, and a file that can be read back. */
  lemma OrdinaryCall(config: Config, build: Build, answers: Answers, rec: AuditRecord, t: Trace, start: FileState,
                     now: FileState)
    requires Accounted(config, build, answers, rec, t, start, now) && Completed(rec.status) && ZeroEnding(config)
    requires Undisturbed(config, build, answers, rec, start.length, t.flushed, t.trimSynced)
    requires TailObstacle(build, answers, start.length, [0]).None?
    requires answers.session.opens && start.length <= answers.session.readable
    ensures Succeeded(rec.status) && rec.slack.eliminated && rec.slack.unitSize > 0
    ensures rec.status.SuccessVerified? <==> rec.scrubbed
    ensures var end := Slack.Boundary(start.length, rec.slack.unitSize);
      && ReadsZeroTo(end, now)
      && end <= |Held(now, rec)| && AllEqual(Held(now, rec)[..end], 0)
  {
    assert TailObstacle(build, answers, 0, [0]).Some?;
    ReadsZero(config, build, answers, rec, t, start, now);
    ZeroEndToEnd(config, build, answers, rec, t, RunOf(config, answers, t, start));
  }

  /** A call whose overwrite failed. */
  lemma FailedAccounted(config: Config, build: Build, answers: Answers, rec: AuditRecord, t: Trace, start: FileState,
                        now: FileState)
    requires Shuffled(t.order) && now.length == start.length
    requires rec == BLANK.(target := rec.target, fileSize := start.length, status := FailedOverwrite)
    requires Explains(RunOf(config, answers, t, start), false, t.done, t.cut, start.cache, now.cache)
    ensures Sound(config, rec) && Accounted(config, build, answers, rec, t, start, now)
  {
  }

  /** A call that went through to its closing status. */
  lemma CompletedSound(config: Config, build: Build, answers: Answers, rec: AuditRecord, next: AuditRecord,
                       t: Trace, t': Trace, start: FileState)
    requires Treated(config, build, answers, rec, t, RunOf(config, answers, t, start))
    requires rec.trim.invoked <==> rec.trim.status.Punched?
    requires next == rec.(scrubbed := next.scrubbed, status := next.status) && Concluded(next) && Completed(next.status)
    requires t' == t.(moved := t'.moved)
    ensures Sound(config, next)
  {
    SanitizedIsSound(config, build, answers, next, t', RunOf(config, answers, t, start));
  }

  lemma CompletedAccounted(config: Config, build: Build, answers: Answers, rec: AuditRecord, next: AuditRecord,
                           t: Trace, t': Trace, start: FileState, now: FileState)
    requires Treated(config, build, answers, rec, t, RunOf(config, answers, t, start)) && t.media == Held(now, rec)
    requires FileLeft(config, build, answers, rec, t.laid, start.cache, now)
    requires next == rec.(scrubbed := next.scrubbed, status := next.status) && Concluded(next) && Completed(next.status)
    requires t' == t.(moved := t'.moved)
    ensures Accounted(config, build, answers, next, t', start, now)
  {
  }
}
