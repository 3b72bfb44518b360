/** What the records of a directory run say together: the tree that its calls leave, which files
    they skip, and the account of every file from the start of the run to its end. */
module Runs {
  import opened Audit
  import opened Bytes
  import opened Passes
  import opened Store
  import opened Namespace
  import Entropy
  import Removal

  /** A statement about record i of a run, its trace and the state its call found. */
  type Proof = (nat, AuditRecord, Trace, FileState) -> bool

  /** A completed record is backed by the trace of its own call. */
  ghost function Backing(config: Config, build: Build, answers: nat -> Answers): Proof {
    (i: nat, rec: AuditRecord, t: Trace, start: FileState) =>
      Completed(rec.status) ==> Sanitized(config, build, answers(i), rec, t, RunOf(config, answers(i), t, start))
  }

  /** Every record has its proof. */
  ghost predicate Evidence(proof: Proof, recs: seq<AuditRecord>, traces: seq<Trace>, starts: seq<FileState>) {
    && |recs| == |traces| == |starts|
    && forall i :: 0 <= i < |recs| ==> proof(i, recs[i], traces[i], starts[i])
  }

  /** Both end-to-end results for every record of a whole run. */
  lemma RunEndToEnd(config: Config, build: Build, answers: nat -> Answers, recs: seq<AuditRecord>,
                    traces: seq<Trace>, starts: seq<FileState>)
    requires Evidence(Backing(config, build, answers), recs, traces, starts)
    ensures ZeroEnding(config) ==> forall i :: 0 <= i < |recs| && Completed(recs[i].status) ==>
              ZeroOnMedia(recs[i].fileSize, recs[i].slack, traces[i].flushed || traces[i].trimSynced, traces[i].media)
    ensures !ZeroEnding(config) ==> forall i :: 0 <= i < |recs| && Succeeded(recs[i].status) && recs[i].fileSize > 0 ==>
              |Entropy.Distinct(traces[i].laid)| >= Entropy.Variety(recs[i].fileSize)
  {
    forall i | 0 <= i < |recs| && Completed(recs[i].status)
      ensures ZeroEnding(config) ==>
        ZeroOnMedia(recs[i].fileSize, recs[i].slack, traces[i].flushed || traces[i].trimSynced, traces[i].media)
      ensures !ZeroEnding(config) && Succeeded(recs[i].status) && recs[i].fileSize > 0 ==>
        |Entropy.Distinct(traces[i].laid)| >= Entropy.Variety(recs[i].fileSize)
    {
      assert Backing(config, build, answers)(i, recs[i], traces[i], starts[i]);
      var run := RunOf(config, answers(i), traces[i], starts[i]);
      if ZeroEnding(config) {
        ZeroEndToEnd(config, build, answers(i), recs[i], traces[i], run);
      } else {
        NoiseEndToEnd(config, build, answers(i), recs[i], traces[i], run);
      }
    }
  }

  // ----- the tree of a directory run -----

  /** The tree after one call. */
  function AfterCall(t: Tree, stuck: set<Path>, rec: AuditRecord, nonce: Nonce, moved: seq<bool>): Tree {
    if Completed(rec.status) && |rec.target| > 0 && |moved| == 3 && rec.target in t
    then AfterScrub(t, stuck, rec.target, nonce, moved) else t
  }

  /** The tree after the calls of a run. */
  function TreeAfter(t: Tree, stuck: set<Path>, recs: seq<AuditRecord>, traces: seq<Trace>,
                     answers: nat -> Answers): Tree
    requires |recs| == |traces|
    decreases |recs|
  {
    if recs == [] then t
    else
      var n := |recs| - 1;
      AfterCall(TreeAfter(t, stuck, recs[..n], traces[..n], answers), stuck, recs[n], answers(n).nonce, traces[n].moved)
  }

  lemma TreeAfterStep(tree: Tree, stuck: set<Path>, recs: seq<AuditRecord>, traces: seq<Trace>, answers: nat -> Answers,
                      rec: AuditRecord, t: Trace)
    requires |recs| == |traces|
    ensures TreeAfter(tree, stuck, recs + [rec], traces + [t], answers)
         == AfterCall(TreeAfter(tree, stuck, recs, traces, answers), stuck, rec, answers(|recs|).nonce, t.moved)
  {
    assert (recs + [rec])[..|recs|] == recs && (traces + [t])[..|recs|] == traces;
  }

  /** The renames that failed in the calls of a run. */
  function RunMisses(recs: seq<AuditRecord>, traces: seq<Trace>): nat
    requires |recs| == |traces|
    decreases |recs|
  {
    if recs == [] then 0
    else var n := |recs| - 1; RunMisses(recs[..n], traces[..n]) + CallMisses(recs[n], traces[n].moved)
  }

  lemma RunMissesStep(recs: seq<AuditRecord>, traces: seq<Trace>, rec: AuditRecord, t: Trace)
    requires |recs| == |traces|
    ensures RunMisses(recs + [rec], traces + [t]) == RunMisses(recs, traces) + CallMisses(rec, t.moved)
  {
    assert (recs + [rec])[..|recs|] == recs && (traces + [t])[..|recs|] == traces;
  }

  /** If no rename failed in a run of two calls, the first made all three of its own. */
  lemma NoMissesFirst(recs: seq<AuditRecord>, traces: seq<Trace>)
    requires |recs| == |traces| == 2 && RunMisses(recs, traces) == 0
    ensures Completed(recs[0].status) && |traces[0].moved| == 3 ==> traces[0].moved == [true, true, true]
  {
    assert recs[..1] == [recs[0]] && traces[..1] == [traces[0]];
    assert RunMisses([recs[0]], [traces[0]]) >= CallMisses(recs[0], traces[0].moved);
  }

  /** The call for `path` skips it exactly if it finds no regular file there. */
  ghost predicate Found(t: Tree, path: Path, rec: AuditRecord, trace: Trace) {
    && rec.target == path && (Completed(rec.status) ==> |trace.moved| == 3)
    && (rec.status.SkippedNotRegularFile? <==> !IsRegular(t, path))
  }

  /** Call i skips its file exactly if the calls before it left no regular file under that name. */
  ghost predicate SkipsExplained(tree: Tree, stuck: set<Path>, files: seq<Path>, recs: seq<AuditRecord>,
                                 traces: seq<Trace>, answers: nat -> Answers)
  {
    && |recs| == |traces| <= |files|
    && forall i :: 0 <= i < |recs| ==>
         Found(TreeAfter(tree, stuck, recs[..i], traces[..i], answers), files[i], recs[i], traces[i])
  }

  /** A rename of this call ran over the name `p`. */
  predicate RanOver(rec: AuditRecord, nonce: Nonce, moved: seq<bool>, p: Path) {
    && Completed(rec.status) && |rec.target| > 0 && |moved| == 3
    && exists k :: 0 <= k < 3 && moved[k] && Masks(rec.target, nonce)[k] == p
  }

  /** No listed file bears a mask of an earlier one. */
  ghost predicate Unmasked(files: seq<Path>, answers: nat -> Answers) {
    forall i, j :: 0 <= i < j < |files| && |files[i]| > 0 ==> files[j] !in Masks(files[i], answers(i).nonce)
  }

  /** One of the first `n` calls ran over the name `p`. */
  predicate RunOver(recs: seq<AuditRecord>, traces: seq<Trace>, answers: nat -> Answers, n: nat, p: Path)
    requires n <= |recs| == |traces|
  {
    exists i :: 0 <= i < n && RanOver(recs[i], answers(i).nonce, traces[i].moved, p)
  }

  lemma RunOverStep(recs: seq<AuditRecord>, traces: seq<Trace>, answers: nat -> Answers, n: nat, p: Path)
    requires n < |recs| == |traces|
    ensures RunOver(recs, traces, answers, n + 1, p)
       <==> RunOver(recs, traces, answers, n, p) || RanOver(recs[n], answers(n).nonce, traces[n].moved, p)
  {
  }

  /** Turn by turn. */
  lemma TreeAfterTurn(tree: Tree, stuck: set<Path>, recs: seq<AuditRecord>, traces: seq<Trace>, answers: nat -> Answers,
                      n: nat)
    requires n < |recs| == |traces|
    ensures TreeAfter(tree, stuck, recs[..n + 1], traces[..n + 1], answers)
         == AfterCall(TreeAfter(tree, stuck, recs[..n], traces[..n], answers), stuck, recs[n], answers(n).nonce,
                      traces[n].moved)
  {
    assert recs[..n + 1] == recs[..n] + [recs[n]] && traces[..n + 1] == traces[..n] + [traces[n]];
    TreeAfterStep(tree, stuck, recs[..n], traces[..n], answers, recs[n], traces[n]);
  }

  /** What the first `n` calls need so that none of them can end under the name `p`. */
  ghost predicate Unclaimed(recs: seq<AuditRecord>, answers: nat -> Answers, stuck: set<Path>, n: nat, p: Path) {
    && n <= |recs|
    && forall i :: 0 <= i < n ==>
         p != recs[i].target && (|recs[i].target| > 0 && p in Masks(recs[i].target, answers(i).nonce) ==> p !in stuck)
  }

  /** Such a name leads to the file that it led to, or nowhere once a rename ran over it. */
  lemma {:induction false} NameAwaits(tree: Tree, stuck: set<Path>, files: seq<Path>, recs: seq<AuditRecord>,
                                      traces: seq<Trace>, answers: nat -> Answers, n: nat, p: Path)
    requires SkipsExplained(tree, stuck, files, recs, traces, answers)
    requires Unclaimed(recs, answers, stuck, n, p) && IsRegular(tree, p)
    ensures var t := TreeAfter(tree, stuck, recs[..n], traces[..n], answers);
      && (p in t <==> !RunOver(recs, traces, answers, n, p))
      && (p in t ==> t[p] == tree[p])
  {
    if n > 0 {
      var m := n - 1;
      NameAwaits(tree, stuck, files, recs, traces, answers, m, p);
      TreeAfterTurn(tree, stuck, recs, traces, answers, m);
      RunOverStep(recs, traces, answers, m, p);
      assert Found(TreeAfter(tree, stuck, recs[..m], traces[..m], answers), files[m], recs[m], traces[m]);
      CallAwaits(TreeAfter(tree, stuck, recs[..m], traces[..m], answers), stuck, recs[m], answers(m).nonce,
                 traces[m].moved, p);
    } else {
      assert recs[..0] == [] && traces[..0] == [];
    }
  }

  /** The same for one call. */
  lemma CallAwaits(t: Tree, stuck: set<Path>, rec: AuditRecord, nonce: Nonce, moved: seq<bool>, p: Path)
    requires p != rec.target && (|rec.target| > 0 && p in Masks(rec.target, nonce) ==> p !in stuck)
    requires Completed(rec.status) ==> |moved| == 3 && rec.target in t
    ensures var next := AfterCall(t, stuck, rec, nonce, moved);
      && (p in next <==> p in t && !RanOver(rec, nonce, moved, p))
      && (p in next ==> next[p] == t[p])
  {
    if Completed(rec.status) && |rec.target| > 0 {
      assert p in Visited(rec.target, nonce, moved) <==> RanOver(rec, nonce, moved, p);
      var current := Current(rec.target, nonce, moved);
      assert current == rec.target || current in Masks(rec.target, nonce);
    }
  }

  /** Unless a refused unlink leaves an earlier file under a listed name, a listed file is skipped,
      and so never overwritten, exactly if the masking rename of an earlier one ran over it. */
  lemma SkippedIff(tree: Tree, stuck: set<Path>, files: seq<Path>, recs: seq<AuditRecord>, traces: seq<Trace>,
                   answers: nat -> Answers)
    requires SkipsExplained(tree, stuck, files, recs, traces, answers) && Untangled(files, answers, stuck)
    requires forall i, k :: 0 <= i < k < |files| ==> files[i] != files[k]
    requires forall p :: p in files ==> IsRegular(tree, p)
    ensures forall j :: 0 <= j < |recs| ==>
              (recs[j].status.SkippedNotRegularFile? <==> RunOver(recs, traces, answers, j, files[j]))
  {
    forall j | 0 <= j < |recs|
      ensures recs[j].status.SkippedNotRegularFile? <==> RunOver(recs, traces, answers, j, files[j])
    {
      assert files[j] in files;
      NameAwaits(tree, stuck, files, recs, traces, answers, j, files[j]);
    }
  }

  /** If no listed file bears a mask of an earlier one, none is skipped. */
  lemma UnmaskedNoneSkipped(tree: Tree, stuck: set<Path>, files: seq<Path>, recs: seq<AuditRecord>, traces: seq<Trace>,
                            answers: nat -> Answers)
    requires SkipsExplained(tree, stuck, files, recs, traces, answers) && Unmasked(files, answers)
    requires forall i, k :: 0 <= i < k < |files| ==> files[i] != files[k]
    requires forall p :: p in files ==> IsRegular(tree, p)
    ensures forall j :: 0 <= j < |recs| ==> !recs[j].status.SkippedNotRegularFile?
  {
    SkippedIff(tree, stuck, files, recs, traces, answers);
    forall j, i | 0 <= i < j < |recs|
      ensures !RanOver(recs[i], answers(i).nonce, traces[i].moved, files[j])
    {
    }
  }

  // ----- the files of a directory run -----

  type Files = map<File, FileState>

  /** No listed file bears a mask of an earlier one that could be left behind under it. */
  ghost predicate Untangled(files: seq<Path>, answers: nat -> Answers, stuck: set<Path>) {
    forall i, j :: 0 <= i < j < |files| && |files[i]| > 0 && files[j] in Masks(files[i], answers(i).nonce) ==>
      files[j] !in stuck
  }

  /** One call touches one file. */
  ghost predicate OneTouched(entries: Tree, path: Path, now: Files, next: Files) {
    && now.Keys == next.Keys
    && forall f :: f in now ==> (IsRegular(entries, path) && entries[path].file == f) || next[f] == now[f]
  }

  /** The listed files from position `from` on are untouched, and a name that still leads somewhere
      leads to its own file. */
  ghost predicate Awaiting(tree: Tree, entries: Tree, start: Files, now: Files, files: seq<Path>, from: nat) {
    forall j :: from <= j < |files| ==>
      && (IsRegular(entries, files[j]) ==> IsRegular(tree, files[j]) && entries[files[j]] == tree[files[j]])
      && (IsRegular(tree, files[j]) ==>
            && tree[files[j]].file in start && tree[files[j]].file in now
            && now[tree[files[j]].file] == start[tree[files[j]].file])
  }

  /** A statement about record i of a run, its trace, and the states of its file then and now. */
  type Claim = (nat, AuditRecord, Trace, FileState, FileState) -> bool

  ghost function Account(config: Config, build: Build, answers: nat -> Answers): Claim {
    (i: nat, rec: AuditRecord, t: Trace, start: FileState, now: FileState) =>
      Accounted(config, build, answers(i), rec, t, start, now)
  }

  /** Every file that had its turn has its account, from the start of the run to now; one that was
      skipped is as it was. */
  ghost predicate Settled(claim: Claim, tree: Tree, start: Files, now: Files, files: seq<Path>,
                          recs: seq<AuditRecord>, traces: seq<Trace>)
  {
    && |recs| == |traces| <= |files|
    && forall i :: 0 <= i < |recs| ==>
      && (!recs[i].status.SkippedNotRegularFile? ==> IsRegular(tree, files[i]))
      && (IsRegular(tree, files[i]) ==>
            var f := tree[files[i]].file;
            && f in start && f in now
            && if recs[i].status.SkippedNotRegularFile? then now[f] == start[f]
               else claim(i, recs[i], traces[i], start[f], now[f]))
  }

  lemma AwaitingFurther(tree: Tree, entries: Tree, next: Tree, start: Files, now: Files, later: Files,
                        files: seq<Path>, i: nat, answers: nat -> Answers, stuck: set<Path>)
    requires forall p :: p in files ==> |p| > 0
    requires forall j, k :: 0 <= j < k < |files| ==> files[j] != files[k]
    requires i < |files| && Untangled(files, answers, stuck)
    requires NoHardLinks(tree) && Awaiting(tree, entries, start, now, files, i)
    requires OneTouched(entries, files[i], now, later)
    requires OldOrRefused(entries, next, stuck, Masks(files[i], answers(i).nonce))
    ensures Awaiting(tree, next, start, later, files, i + 1)
  {
    forall j | i + 1 <= j < |files|
      ensures IsRegular(next, files[j]) ==> IsRegular(tree, files[j]) && next[files[j]] == tree[files[j]]
      ensures IsRegular(tree, files[j]) ==>
                && tree[files[j]].file in now && later[tree[files[j]].file] == now[tree[files[j]].file]
    {
      assert files[i] != files[j];
      if IsRegular(next, files[j]) {
        assert files[j] in entries && next[files[j]] == entries[files[j]];
        assert IsRegular(entries, files[j]);
      }
    }
  }

  lemma SettledFurther(claim: Claim, tree: Tree, entries: Tree, start: Files, now: Files, later: Files,
                       files: seq<Path>, recs: seq<AuditRecord>, traces: seq<Trace>, rec: AuditRecord, t: Trace)
    requires |recs| < |files| && forall j, k :: 0 <= j < k < |files| ==> files[j] != files[k]
    requires NoHardLinks(tree) && Awaiting(tree, entries, start, now, files, |recs|)
    requires Settled(claim, tree, start, now, files, recs, traces)
    requires OneTouched(entries, files[|recs|], now, later)
    requires rec.status.SkippedNotRegularFile? <==> !IsRegular(entries, files[|recs|])
    requires IsRegular(entries, files[|recs|]) ==>
               var f := entries[files[|recs|]].file;
               f in now && claim(|recs|, rec, t, now[f], later[f])
    ensures Settled(claim, tree, start, later, files, recs + [rec], traces + [t])
  {
    var n, all, ts := |recs|, recs + [rec], traces + [t];
    forall i | 0 <= i < |all|
      ensures !all[i].status.SkippedNotRegularFile? ==> IsRegular(tree, files[i])
      ensures IsRegular(tree, files[i]) ==>
        var f := tree[files[i]].file;
        && f in start && f in later
        && if all[i].status.SkippedNotRegularFile? then later[f] == start[f]
           else claim(i, all[i], ts[i], start[f], later[f])
    {
      if i < n {
        assert all[i] == recs[i] && ts[i] == traces[i];
        if IsRegular(tree, files[i]) {
          assert files[i] != files[n];
          assert later[tree[files[i]].file] == now[tree[files[i]].file];
        }
      }
    }
  }

  /** End to end for a whole directory: with a method that ends in zeros, every file that got past
      the overwrite reads as zero, and what its medium held at its discard is zero wherever its
      record says so. */
  lemma DirectoryZeroEndToEnd(config: Config, build: Build, answers: nat -> Answers, tree: Tree, start: Files,
                              now: Files, files: seq<Path>, recs: seq<AuditRecord>, traces: seq<Trace>)
    requires Settled(Account(config, build, answers), tree, start, now, files, recs, traces) && ZeroEnding(config)
    ensures forall i :: 0 <= i < |recs| && Completed(recs[i].status) ==>
      var origin, last := start[tree[files[i]].file], now[tree[files[i]].file];
      && ReadsZeroTo(origin.length, last)
      && ZeroOnMedia(origin.length, recs[i].slack, traces[i].flushed || traces[i].trimSynced, Held(last, recs[i]))
  {
    forall i | 0 <= i < |recs| && Completed(recs[i].status)
      ensures var origin, last := start[tree[files[i]].file], now[tree[files[i]].file];
        && ReadsZeroTo(origin.length, last)
        && ZeroOnMedia(origin.length, recs[i].slack, traces[i].flushed || traces[i].trimSynced, Held(last, recs[i]))
    {
      var origin, last := start[tree[files[i]].file], now[tree[files[i]].file];
      assert Account(config, build, answers)(i, recs[i], traces[i], origin, last);
      var run := RunOf(config, answers(i), traces[i], origin);
      ZeroEndToEnd(config, build, answers(i), recs[i], traces[i], run);
      ReadsZero(config, build, answers(i), recs[i], traces[i], origin, last);
    }
  }

  /** Without refusals and failed overwrites every file that had its turn is gone. */
  ghost predicate Emptied(t: Tree, stuck: set<Path>, recs: seq<AuditRecord>, files: seq<Path>) {
    stuck == {} && NoFailedOverwrite(recs) ==> forall p :: p in files ==> p !in t
  }

  lemma EmptiedFurther(before: Tree, t: Tree, next: Tree, dir: Path, stuck: set<Path>,
                       recs: seq<AuditRecord>, rec: AuditRecord, files: seq<Path>, path: Path)
    requires OnlyFilesChange(before, next, dir) && IsRegular(before, path)
    requires Emptied(t, stuck, recs, files)
    requires stuck == {} ==> next.Keys <= t.Keys
    requires stuck == {} && !rec.status.FailedOverwrite? ==> !IsRegular(next, path)
    ensures Emptied(next, stuck, recs + [rec], files + [path])
  {
    if stuck == {} && NoFailedOverwrite(recs + [rec]) {
      assert rec in recs + [rec];
      assert forall r :: r in recs ==> r in recs + [rec];
    }
  }

  /** What the two stages of shred_directory leave of the tree. */
  ghost predicate StagesLeave(before: Tree, afterFiles: Tree, after: Tree, dir: Path, listing: seq<Path>,
                              stuck: set<Path>, recs: seq<AuditRecord>, traces: seq<Trace>, answers: nat -> Answers)
  {
    var files, dirs := Removal.Select(before, listing, false), Removal.Select(before, listing, true);
    var turns := Removal.Turns(dir, dirs);
    && OnlyFilesChange(before, afterFiles, dir)
    && (stuck == {} ==> afterFiles.Keys <= before.Keys)
    && Emptied(afterFiles, stuck, recs, files)
    && |recs| == |traces| && afterFiles == TreeAfter(before, stuck, recs, traces, answers)
    && after == Removal.Remaining(afterFiles, turns, stuck, turns)
  }

  /** With a complete listing of files and directories, no refusals and no failed overwrite, the
      whole tree goes and nothing else does. */
  lemma WholeDirectoryGone(before: Tree, afterFiles: Tree, after: Tree, dir: Path, listing: seq<Path>,
                           stuck: set<Path>, recs: seq<AuditRecord>, traces: seq<Trace>, answers: nat -> Answers)
    requires StagesLeave(before, afterFiles, after, dir, listing, stuck, recs, traces, answers)
    requires IsDirectory(before, dir) && forall p :: p in listing ==> Below(dir, p)
    ensures stuck == {} && NoFailedOverwrite(recs) && Removal.Complete(before, dir, listing) ==>
              Removal.Gone(before, after, dir)
  {
    var files, dirs := Removal.Select(before, listing, false), Removal.Select(before, listing, true);
    forall p
      ensures p in files <==> p in listing && IsRegular(before, p)
      ensures p in dirs <==> p in listing && IsDirectory(before, p)
    {
      Removal.SelectExactly(before, listing, false, p);
      Removal.SelectExactly(before, listing, true, p);
    }
    if stuck == {} && NoFailedOverwrite(recs) && Removal.Complete(before, dir, listing) {
      Removal.AllGone(before, afterFiles, dir, listing, files, dirs, stuck);
    }
  }

  /** One sound record per file, in order, after the old ones. */
  ghost predicate Appended(config: Config, before: seq<AuditRecord>, after: seq<AuditRecord>, files: seq<Path>) {
    && |after| == |before| + |files| && after[..|before|] == before
    && forall i :: 0 <= i < |files| ==> after[|before| + i].target == files[i] && Sound(config, after[|before| + i])
  }

  lemma AppendedSound(config: Config, before: seq<AuditRecord>, after: seq<AuditRecord>, files: seq<Path>)
    requires Appended(config, before, after, files)
    ensures before <= after
    ensures forall i :: |before| <= i < |after| ==> Sound(config, after[i])
  {
    forall i | |before| <= i < |after|
      ensures Sound(config, after[i])
    {
      var k := i - |before|;
      assert after[|before| + k].target == files[k];
    }
  }

  lemma AppendedFurther(config: Config, first: seq<AuditRecord>, list: seq<AuditRecord>, rec: AuditRecord,
                        files: seq<Path>, path: Path)
    requires Appended(config, first, list, files) && rec.target == path && Sound(config, rec)
    ensures Appended(config, first, list + [rec], files + [path])
    ensures (list + [rec])[|first|..] == list[|first|..] + [rec]
  {
  }

  ghost predicate NoFailedOverwrite(recs: seq<AuditRecord>) {
    forall r :: r in recs ==> !r.status.FailedOverwrite?
  }

  /** The records that a file stage adds: one sound record per file in order, each with its proof,
      skipped exactly where the calls before left no file; and, unless a refused unlink left an
      earlier file under a listed name, each accounting for its file from the start of the run. */
  ghost predicate Recorded(config: Config, proof: Proof, claim: Claim, answers: nat -> Answers, tree: Tree,
                           start: Files, now: Files, files: seq<Path>, stuck: set<Path>,
                           before: seq<AuditRecord>, after: seq<AuditRecord>, traces: seq<Trace>,
                           starts: seq<FileState>)
  {
    && Appended(config, before, after, files)
    && Evidence(proof, after[|before|..], traces, starts)
    && SkipsExplained(tree, stuck, files, after[|before|..], traces, answers)
    && (Untangled(files, answers, stuck) ==> Settled(claim, tree, start, now, files, after[|before|..], traces))
  }

  /** The same where the proof of a record is the trace of its own call. */
  ghost predicate Backed(config: Config, build: Build, answers: nat -> Answers, tree: Tree, start: Files, now: Files,
                         files: seq<Path>, stuck: set<Path>, before: seq<AuditRecord>, after: seq<AuditRecord>,
                         traces: seq<Trace>, starts: seq<FileState>)
  {
    Recorded(config, Backing(config, build, answers), Account(config, build, answers), answers, tree, start, now,
             files, stuck, before, after, traces, starts)
  }

  /** If no listed file bears a mask of an earlier one, every one of them is overwritten, or its
      record says that the overwrite failed; either way its bytes are accounted for. */
  lemma EveryFileOverwritten(config: Config, proof: Proof, claim: Claim, answers: nat -> Answers, tree: Tree,
                             start: Files, now: Files, files: seq<Path>, stuck: set<Path>,
                             before: seq<AuditRecord>, after: seq<AuditRecord>, traces: seq<Trace>,
                             starts: seq<FileState>)
    requires Recorded(config, proof, claim, answers, tree, start, now, files, stuck, before, after, traces, starts)
    requires Unmasked(files, answers)
    requires forall i, k :: 0 <= i < k < |files| ==> files[i] != files[k]
    requires forall p :: p in files ==> IsRegular(tree, p)
    ensures var recs := after[|before|..];
      |recs| == |traces| == |files| && forall i :: 0 <= i < |files| ==>
        && (Completed(recs[i].status) || recs[i].status.FailedOverwrite?)
        && IsRegular(tree, files[i]) && tree[files[i]].file in start && tree[files[i]].file in now
        && claim(i, recs[i], traces[i], start[tree[files[i]].file], now[tree[files[i]].file])
  {
    var recs := after[|before|..];
    UnmaskedNoneSkipped(tree, stuck, files, recs, traces, answers);
    forall i | 0 <= i < |files|
      ensures Completed(recs[i].status) || recs[i].status.FailedOverwrite?
      ensures IsRegular(tree, files[i])
    {
      assert after[|before| + i] == recs[i] && Sound(config, recs[i]);
    }
  }

  /** So with a method that ends in zeros every listed file reads as zero, or its record says that the
      overwrite failed. */
  lemma EveryFileZeroed(config: Config, build: Build, answers: nat -> Answers, tree: Tree, start: Files, now: Files,
                        files: seq<Path>, stuck: set<Path>, before: seq<AuditRecord>, after: seq<AuditRecord>,
                        traces: seq<Trace>, starts: seq<FileState>)
    requires Backed(config, build, answers, tree, start, now, files, stuck, before, after, traces, starts)
    requires Unmasked(files, answers) && ZeroEnding(config)
    requires forall i, k :: 0 <= i < k < |files| ==> files[i] != files[k]
    requires forall p :: p in files ==> IsRegular(tree, p)
    ensures |after| == |before| + |files|
    ensures forall i :: 0 <= i < |files| && !after[|before| + i].status.FailedOverwrite? ==>
      && IsRegular(tree, files[i]) && tree[files[i]].file in start && tree[files[i]].file in now
      && Completed(after[|before| + i].status)
      && ReadsZeroTo(start[tree[files[i]].file].length, now[tree[files[i]].file])
  {
    var recs := after[|before|..];
    EveryFileOverwritten(config, Backing(config, build, answers), Account(config, build, answers), answers, tree,
                         start, now, files, stuck, before, after, traces, starts);
    forall i | 0 <= i < |files| && !after[|before| + i].status.FailedOverwrite?
      ensures ReadsZeroTo(start[tree[files[i]].file].length, now[tree[files[i]].file])
    {
      assert after[|before| + i] == recs[i];
      ReadsZero(config, build, answers(i), recs[i], traces[i],
                start[tree[files[i]].file], now[tree[files[i]].file]);
    }
  }

  /** One record for every regular file of the listing, and no other. */
  lemma OneRecordEach(config: Config, tree: Tree, listing: seq<Path>, before: seq<AuditRecord>, after: seq<AuditRecord>)
    requires Appended(config, before, after, Removal.Select(tree, listing, false)) && Removal.PreOrder(listing)
    ensures forall p :: p in listing && IsRegular(tree, p) <==>
                        exists i :: |before| <= i < |after| && after[i].target == p
    ensures forall i, j :: |before| <= i < j < |after| ==> after[i].target != after[j].target
  {
    var files, n := Removal.Select(tree, listing, false), |before|;
    Removal.SelectKeepsOrder(tree, listing, false);
    forall i | n <= i < |after|
      ensures after[i].target == files[i - n]
    {
      assert after[n + (i - n)].target == files[i - n];
    }
    forall p
      ensures p in listing && IsRegular(tree, p) <==> exists i :: n <= i < |after| && after[i].target == p
    {
      Removal.SelectExactly(tree, listing, false, p);
      if p in files {
        var k :| 0 <= k < |files| && files[k] == p;
        assert after[n + k].target == p;
      }
    }
  }

  /** With a method that ends in zeros and no listed file that bears a mask of an earlier one, every
      regular file of the listing reads as zero or has a record that its overwrite failed. */
  lemma ListedZeroed(config: Config, build: Build, answers: nat -> Answers, tree: Tree, start: Files, now: Files,
                     listing: seq<Path>, stuck: set<Path>, before: seq<AuditRecord>, after: seq<AuditRecord>,
                     traces: seq<Trace>, starts: seq<FileState>)
    requires Backed(config, build, answers, tree, start, now, Removal.Select(tree, listing, false), stuck, before,
                    after, traces, starts)
    requires Removal.PreOrder(listing) && ZeroEnding(config)
    requires Unmasked(Removal.Select(tree, listing, false), answers)
    ensures forall p :: p in listing && IsRegular(tree, p) ==>
      || (exists i :: |before| <= i < |after| && after[i].target == p && after[i].status.FailedOverwrite?)
      || (tree[p].file in start && tree[p].file in now
          && ReadsZeroTo(start[tree[p].file].length, now[tree[p].file]))
  {
    var files, n := Removal.Select(tree, listing, false), |before|;
    Removal.SelectKeepsOrder(tree, listing, false);
    forall p
      ensures p in files <==> p in listing && IsRegular(tree, p)
    {
      Removal.SelectExactly(tree, listing, false, p);
    }
    EveryFileZeroed(config, build, answers, tree, start, now, files, stuck, before, after, traces, starts);
    forall p | p in listing && IsRegular(tree, p)
      ensures || (exists i :: n <= i < |after| && after[i].target == p && after[i].status.FailedOverwrite?)
              || (tree[p].file in start && tree[p].file in now
                  && ReadsZeroTo(start[tree[p].file].length, now[tree[p].file]))
    {
      assert p in files;
      var k :| 0 <= k < |files| && files[k] == p;
      assert after[n + k].target == p;
    }
  }

  /** A listed file whose name a masking rename ran over is skipped, and its bytes are those it had. */
  lemma RunOverIsLost(claim: Claim, answers: nat -> Answers, tree: Tree, start: Files, now: Files, files: seq<Path>,
                      stuck: set<Path>, recs: seq<AuditRecord>, traces: seq<Trace>, j: nat)
    requires SkipsExplained(tree, stuck, files, recs, traces, answers) && Untangled(files, answers, stuck)
    requires Settled(claim, tree, start, now, files, recs, traces) && j < |recs|
    requires forall i, k :: 0 <= i < k < |files| ==> files[i] != files[k]
    requires forall p :: p in files ==> IsRegular(tree, p)
    ensures recs[j].status.SkippedNotRegularFile? <==> RunOver(recs, traces, answers, j, files[j])
    ensures RunOver(recs, traces, answers, j, files[j]) ==>
              && tree[files[j]].file in start && tree[files[j]].file in now
              && now[tree[files[j]].file] == start[tree[files[j]].file]
  {
    SkippedIff(tree, stuck, files, recs, traces, answers);
    assert files[j] in files;
  }

  /** Two files in one directory, the second named like the short mask of the first. */
  function TwoFiles(f: File, g: File): Tree {
    map[["d"] := Directory, ["d", "a"] := Regular(f), ["d", "0_100000"] := Regular(g)]
  }

  function States(f: File, x: FileState, g: File, y: FileState): (m: Files)
    ensures m.Keys == {f, g} && m[g] == y && (f != g ==> m[f] == x)
  {
    map[f := x, g := y]
  }

  /** The first call of a run, with its proof and its account. */
  lemma FirstOfTwo(config: Config, answers: nat -> Answers, path: Path)
    returns (rec: AuditRecord, t: Trace, x: FileState, x': FileState)
    requires config == Config(ZeroOnly, 1, true, 1, true) && answers(0) == Declining()
    ensures Sound(config, rec) && rec.status.SuccessVerified? && rec.target == path && t.moved == [true, true, true]
    ensures x.cache == [7] && x'.cache == [0]
    ensures Backing(config, PosixBuild, answers)(0, rec, t, x)
    ensures Account(config, PosixBuild, answers)(0, rec, t, x, x')
  {
    var run;
    x, x' := OneByte(7), FileState([0], 1, [0], []);
    rec, t, run := OneByteVerified(config, PosixBuild, answers(0), path, DeclinedResult(PosixBuild));
    OneByteAccounted(config, PosixBuild, answers(0), rec, t, x');
  }

  /** A call that was not completed needs no proof. */
  lemma NothingToProve(config: Config, build: Build, answers: nat -> Answers, i: nat, rec: AuditRecord, t: Trace,
                       start: FileState)
    requires !Completed(rec.status)
    ensures Backing(config, build, answers)(i, rec, t, start)
  {
  }

  /** The first of two files, the second being named like the short mask of the first. */
  lemma ShortMaskTree(f: File, g: File, rec: AuditRecord)
    requires Completed(rec.status) && rec.target == ["d", "a"]
    ensures AfterCall(TwoFiles(f, g), {}, rec, "100000", [true, true, true]) == map[["d"] := Directory]
  {
    var path: Path, nonce: Nonce, moved := ["d", "a"], "100000", [true, true, true];
    assert Parent(path) == ["d"] && "0_" + nonce == "0_100000";
    assert Masks(path, nonce)[2] == ["d"] + ["0_100000"] == ["d", "0_100000"] && moved[2];
    assert ["d", "0_100000"] in Visited(path, nonce, moved) && |["d"]| != |path|;
    assert forall p :: p in Visited(path, nonce, moved) ==> |p| == 2;
  }

  /** A run of two files in which the first call leaves no file for the second: that one is skipped
      with its bytes in place. */
  lemma SecondSkipped(config: Config, proof: Proof, claim: Claim, answers: nat -> Answers, tree: Tree, start: Files,
                      now: Files, a: Path, b: Path, rec: AuditRecord, skip: AuditRecord, t: Trace,
                      x: FileState, y: FileState)
    requires IsRegular(tree, a) && tree[a].file in start && tree[a].file in now && start[tree[a].file] == x
    requires IsRegular(tree, b) && tree[b].file in start && tree[b].file in now && start[tree[b].file] == y
    requires Found(tree, a, rec, t) && Sound(config, rec)
    requires proof(0, rec, t, x) && proof(1, skip, t, y)
    requires claim(0, rec, t, x, now[tree[a].file]) && now[tree[b].file] == y
    requires skip == BLANK.(target := b, status := SkippedNotRegularFile)
    requires b !in AfterCall(tree, {}, rec, answers(0).nonce, t.moved)
    ensures Recorded(config, proof, claim, answers, tree, start, now, [a, b], {}, [], [rec, skip], [t, t], [x, y])
    ensures TreeAfter(tree, {}, [rec, skip], [t, t], answers) == AfterCall(tree, {}, rec, answers(0).nonce, t.moved)
  {
    var recs, traces := [rec, skip], [t, t];
    assert recs[0..] == recs && recs[..0] == [] && traces[..0] == [] && recs[..2] == recs && traces[..2] == traces;
    TreeAfterTurn(tree, {}, recs, traces, answers, 0);
    TreeAfterTurn(tree, {}, recs, traces, answers, 1);
    assert Found(AfterCall(tree, {}, rec, answers(0).nonce, t.moved), b, skip, t);
    assert Sound(config, skip);
  }

  /** Once the first of those two files is scrubbed in full, neither name is left. */
  lemma TwoFilesLost(config: Config, proof: Proof, claim: Claim, answers: nat -> Answers, f: File, g: File,
                     rec: AuditRecord, skip: AuditRecord, t: Trace, x: FileState, x': FileState, y: FileState)
    requires f != g && answers(0).nonce == "100000"
    requires Sound(config, rec) && Completed(rec.status) && rec.target == ["d", "a"] && t.moved == [true, true, true]
    requires skip == BLANK.(target := ["d", "0_100000"], status := SkippedNotRegularFile)
    requires proof(0, rec, t, x) && proof(1, skip, t, y) && claim(0, rec, t, x, x')
    ensures Recorded(config, proof, claim, answers, TwoFiles(f, g), States(f, x, g, y), States(f, x', g, y),
                     [["d", "a"], ["d", "0_100000"]], {}, [], [rec, skip], [t, t], [x, y])
    ensures TreeAfter(TwoFiles(f, g), {}, [rec, skip], [t, t], answers) == map[["d"] := Directory]
  {
    ShortMaskTree(f, g, rec);
    SecondSkipped(config, proof, claim, answers, TwoFiles(f, g), States(f, x, g, y), States(f, x', g, y),
                  ["d", "a"], ["d", "0_100000"], rec, skip, t, x, y);
  }

  /** The loss in a directory of two files, the second named like the short mask of the first: the
      first is zeroed and ends in SUCCESS_VERIFIED, the second is skipped with whatever it holds in
      place, and neither name is left. */
  lemma SiblingLost(config: Config, answers: nat -> Answers, f: File, g: File, y: FileState)
    returns (rec: AuditRecord, skip: AuditRecord, t: Trace, x: FileState, x': FileState)
    requires f != g && config == Config(ZeroOnly, 1, true, 1, true) && answers(0) == Declining()
    ensures rec.status.SuccessVerified? && skip.status.SkippedNotRegularFile?
    ensures x.cache == [7] && x'.cache == [0]
    ensures Backed(config, PosixBuild, answers, TwoFiles(f, g), States(f, x, g, y), States(f, x', g, y),
                   [["d", "a"], ["d", "0_100000"]], {}, [], [rec, skip], [t, t], [x, y])
    ensures TreeAfter(TwoFiles(f, g), {}, [rec, skip], [t, t], answers) == map[["d"] := Directory]
  {
    rec, t, x, x' := FirstOfTwo(config, answers, ["d", "a"]);
    skip := BLANK.(target := ["d", "0_100000"], status := SkippedNotRegularFile);
    NothingToProve(config, PosixBuild, answers, 1, skip, t, y);
    TwoFilesLost(config, Backing(config, PosixBuild, answers), Account(config, PosixBuild, answers), answers, f, g,
                 rec, skip, t, x, x', y);
  }

  /** Two files, of which the second can bear a mask of the first: it is skipped, with its bytes in
      place, exactly if a rename of the first ran over it. */
  lemma {:induction false} PairSkippedIff(claim: Claim, answers: nat -> Answers, tree: Tree, start: Files, now: Files,
                                          a: Path, b: Path, stuck: set<Path>, recs: seq<AuditRecord>,
                                          traces: seq<Trace>)
    requires a != b && b !in stuck && IsRegular(tree, a) && IsRegular(tree, b)
    requires SkipsExplained(tree, stuck, [a, b], recs, traces, answers) && |recs| == 2
    requires Untangled([a, b], answers, stuck) ==> Settled(claim, tree, start, now, [a, b], recs, traces)
    ensures var lost := RanOver(recs[0], answers(0).nonce, traces[0].moved, b);
      && (recs[1].status.SkippedNotRegularFile? <==> lost)
      && (lost ==> tree[b].file in start && tree[b].file in now && now[tree[b].file] == start[tree[b].file])
      && (Completed(recs[0].status) && |a| > 0 && RunMisses(recs, traces) == 0 ==>
            (lost <==> b in Masks(a, answers(0).nonce)))
  {
    var files := [a, b];
    if RunMisses(recs, traces) == 0 { NoMissesFirst(recs, traces); }
    RunOverStep(recs, traces, answers, 0, b);
    assert files[1] == b;
    RunOverIsLost(claim, answers, tree, start, now, files, stuck, recs, traces, 1);
  }

  /** The files that a call of shred goes through. */
  ghost function Targets(config: Config, tree: Tree, path: Path, listing: seq<Path>): seq<Path> {
    if !IsDirectory(tree, path) then [path]
    else if config.recursive then Removal.Select(tree, listing, false)
    else []
  }

  /** The tree after a call of shred. */
  ghost function TreeLeft(config: Config, tree: Tree, path: Path, listing: seq<Path>, stuck: set<Path>,
                          recs: seq<AuditRecord>, traces: seq<Trace>, answers: nat -> Answers): Tree
    requires |recs| == |traces|
  {
    var t := TreeAfter(tree, stuck, recs, traces, answers);
    if IsDirectory(tree, path) && config.recursive then
      var turns := Removal.Turns(path, Removal.Select(tree, listing, true));
      Removal.Remaining(t, turns, stuck, turns)
    else t
  }

  /** A single call as a run of one file. */
  lemma OneRecorded(config: Config, proof: Proof, claim: Claim, answers: nat -> Answers, tree: Tree, start: Files,
                    now: Files, path: Path, stuck: set<Path>, before: seq<AuditRecord>, rec: AuditRecord, t: Trace,
                    state: FileState)
    requires Found(tree, path, rec, t) && Sound(config, rec) && proof(0, rec, t, state)
    requires IsRegular(tree, path) ==>
               && tree[path].file in start && tree[path].file in now
               && claim(0, rec, t, start[tree[path].file], now[tree[path].file])
    ensures Recorded(config, proof, claim, answers, tree, start, now, [path], stuck, before, before + [rec],
                     [t], [state])
    ensures TreeAfter(tree, stuck, [rec], [t], answers) == AfterCall(tree, stuck, rec, answers(0).nonce, t.moved)
    ensures RunMisses([rec], [t]) == CallMisses(rec, t.moved)
  {
    assert (before + [rec])[|before|..] == [rec];
    assert [rec][..0] == [] && [t][..0] == [];
  }

  /** The ghost state of a file stage that began with `tree`, `first`, `origin` and `faults`. */
  datatype Stage = Stage(tree: Tree, first: seq<AuditRecord>, origin: Files, faults: nat,
                         recs: seq<AuditRecord>, traces: seq<Trace>, starts: seq<FileState>)
  {
    ghost function Next(rec: AuditRecord, t: Trace, start: FileState): Stage {
      this.(recs := recs + [rec], traces := traces + [t], starts := starts + [start])
    }
  }

  /** The tree and the list of records after the first |recs| files. */
  ghost predicate TreeKept(s: Stage, config: Config, entries: Tree, dir: Path, stuck: set<Path>, files: seq<Path>) {
    && |s.recs| <= |files|
    && Appended(config, s.first, s.first + s.recs, files[..|s.recs|])
    && OnlyFilesChange(s.tree, entries, dir) && (stuck == {} ==> entries.Keys <= s.tree.Keys)
    && Emptied(entries, stuck, s.recs, files[..|s.recs|])
  }

  /** The tree is that of the calls so far, and so are the skips and the failed renames. */
  ghost predicate CallsKept(s: Stage, entries: Tree, faults: nat, files: seq<Path>, answers: nat -> Answers,
                            stuck: set<Path>)
  {
    && SkipsExplained(s.tree, stuck, files, s.recs, s.traces, answers)
    && entries == TreeAfter(s.tree, stuck, s.recs, s.traces, answers)
    && faults == s.faults + RunMisses(s.recs, s.traces)
  }

  lemma TurnOfCalls(s: Stage, entries: Tree, next: Tree, faults: nat, later: nat, files: seq<Path>,
                    answers: nat -> Answers, stuck: set<Path>, rec: AuditRecord, t: Trace, start: FileState)
    requires CallsKept(s, entries, faults, files, answers, stuck) && |s.recs| < |files|
    requires rec.target == files[|s.recs|] && (Completed(rec.status) ==> |t.moved| == 3)
    requires rec.status.SkippedNotRegularFile? <==> !IsRegular(entries, rec.target)
    requires next == AfterCall(entries, stuck, rec, answers(|s.recs|).nonce, t.moved)
    requires later == faults + CallMisses(rec, t.moved)
    ensures CallsKept(s.Next(rec, t, start), next, later, files, answers, stuck)
  {
    RunMissesStep(s.recs, s.traces, rec, t);
    TreeAfterStep(s.tree, stuck, s.recs, s.traces, answers, rec, t);
    var n, recs, traces := |s.recs|, s.recs + [rec], s.traces + [t];
    forall i | 0 <= i <= n
      ensures Found(TreeAfter(s.tree, stuck, recs[..i], traces[..i], answers), files[i], recs[i], traces[i])
    {
      if i < n {
        assert recs[..i] == s.recs[..i] && traces[..i] == s.traces[..i];
      } else {
        assert recs[..i] == s.recs && traces[..i] == s.traces;
      }
    }
  }

  /** The proofs, and the accounts unless names are tangled. */
  ghost predicate FilesKept(s: Stage, proof: Proof, claim: Claim, entries: Tree, now: Files, files: seq<Path>,
                            answers: nat -> Answers, stuck: set<Path>)
  {
    && Evidence(proof, s.recs, s.traces, s.starts)
    && (Untangled(files, answers, stuck) ==>
          && Awaiting(s.tree, entries, s.origin, now, files, |s.recs|)
          && Settled(claim, s.tree, s.origin, now, files, s.recs, s.traces))
  }

  /** One turn of the file stage, for the tree and the list of records. */
  lemma TurnOfTree(s: Stage, config: Config, entries: Tree, next: Tree, dir: Path, stuck: set<Path>, files: seq<Path>,
                   rec: AuditRecord, t: Trace, start: FileState)
    requires TreeKept(s, config, entries, dir, stuck, files)
    requires |s.recs| < |files| && IsRegular(s.tree, files[|s.recs|])
    requires rec.target == files[|s.recs|] && Sound(config, rec)
    requires OnlyFilesChange(entries, next, dir)
    requires stuck == {} ==> next.Keys <= entries.Keys
    requires stuck == {} && !rec.status.FailedOverwrite? ==> !IsRegular(next, files[|s.recs|])
    ensures TreeKept(s.Next(rec, t, start), config, next, dir, stuck, files)
    ensures s.first + s.recs + [rec] == s.first + s.Next(rec, t, start).recs
  {
    var n, recs := |s.recs|, s.recs;
    assert files[..n + 1] == files[..n] + [files[n]];
    AppendAssociates(s.first, recs, [rec]);
    ChangesAddUp(s.tree, entries, next, dir);
    AppendedFurther(config, s.first, s.first + recs, rec, files[..n], files[n]);
    EmptiedFurther(s.tree, entries, next, dir, stuck, recs, rec, files[..n], files[n]);
  }

  /** The same for the proofs and the accounts. */
  lemma TurnOfFiles(s: Stage, proof: Proof, claim: Claim, entries: Tree, next: Tree, now: Files, later: Files,
                    files: seq<Path>, answers: nat -> Answers, stuck: set<Path>,
                    rec: AuditRecord, t: Trace, start: FileState)
    requires FilesKept(s, proof, claim, entries, now, files, answers, stuck)
    requires |s.recs| < |files| && forall p :: p in files ==> |p| > 0
    requires forall j, k :: 0 <= j < k < |files| ==> files[j] != files[k]
    requires NoHardLinks(s.tree)
    requires proof(|s.recs|, rec, t, start)
    requires rec.status.SkippedNotRegularFile? <==> !IsRegular(entries, files[|s.recs|])
    requires OneTouched(entries, files[|s.recs|], now, later)
    requires IsRegular(entries, files[|s.recs|]) ==>
               var f := entries[files[|s.recs|]].file;
               f in now && claim(|s.recs|, rec, t, now[f], later[f])
    requires OldOrRefused(entries, next, stuck, Masks(files[|s.recs|], answers(|s.recs|).nonce))
    ensures FilesKept(s.Next(rec, t, start), proof, claim, next, later, files, answers, stuck)
  {
    if Untangled(files, answers, stuck) {
      AwaitingFurther(s.tree, entries, next, s.origin, now, later, files, |s.recs|, answers, stuck);
      SettledFurther(claim, s.tree, entries, s.origin, now, later, files, s.recs, s.traces, rec, t);
    }
  }
}
