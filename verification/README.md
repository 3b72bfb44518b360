# Verification of the Aegis sanitisation engine

This project models `FileShredder` and the filesystem layer under it, and proves what the
sanitiser does to the bytes of a file, to the directory tree and to its audit trail, under any
pattern of failing or interrupted system calls. Check it with `dafny verify dfyconfig.toml`.

## The simulated store

A file (`Store.File`) is its allocated bytes as the operating system sees them (`cache`), the same
offsets on the medium (`media`), and a logical length. Any set of bytes may be written back at any
time; only a successful sync forces the medium to agree. Writes take any non-empty prefix or are
interrupted, size changes, seeks and syncs may fail, and every such choice is nondeterministic, so
each contract holds for all of them. Growing a file exposes bytes of unknown content; shrinking
leaves every byte in place, which is what the source assumes (`platform_fs_posix.cpp`, lines 113 to
116). `std::fstream` (`Store.OutStream`) holds bytes back in a user-space buffer and may hand any
prefix to the file at any moment, so a failing pass can tear anywhere. A read session
(`Store.ReadFaults`) is whether the file opens and how many bytes arrive before an error. The
directory tree (`Namespace.Volume`) maps paths to nodes; `stuck` is an arbitrary set of paths whose
removal is refused; failed renames are counted. A generator draw is the eight bytes that `memcpy` sees, and the draws of a call
are an arbitrary infinite sequence.

Queries that only select a branch (statfs, fstat, FIEMAP, file attributes, cluster size, retrieval
pointers, the scrub's nonce, the noise block) are parameters.

## Modules

- `Bytes`, `Division`, `Powers`: sequences, quotients, and powers up to a weighted mean inequality.
- `Passes`: the schedules and the closed form of every pass. `Overwrite`: the engine proved against it.
- `GutmannCoverage`: what the 27 shuffled passes lay at each offset.
- `Entropy`: the Shannon threshold in exact integers, Gibbs' inequality, the bounds. `Threshold`: the decision as a cut
  through the rational bounds on the entropy. `Verifiers`: the two read-back loops.
- `Slack`, `SlackPosix`, `SlackWin32`: the slack run and its two implementations. `Discard`: the hole punch.
- `Namespace`: renames, removal, the metadata scrub. `Removal`: directories in reverse listing order.
- `Audit`: the audit record of a call, the trace of what happened below it, and what the two say about
  the file. `Runs`: how that adds up over a directory. `Shredder`: the pipeline, directories and whole calls.

## Where the code and its documentation differ

The model follows the code.

- `README.md` line 115 promises a flush after every pass. The code syncs once after all passes and
  ignores the outcome (`file_shredder.cpp` line 406). `ZeroEndToEnd` therefore speaks about the
  medium when one of the three syncs succeeded: that flush, the one of the slack step, or the one of
  the discard step.
- `platform_fs.hpp` lines 45 to 47 say the logical size is always restored. `TailLeft` states the
  exact condition: it is, unless the shrinking call itself failed.
- The masks described as equal-length are seven characters longer than the name (`MasksAreLonger`).
- `verify_entropy` does not ask whether it read the whole file. Acceptance certifies a full read if
  and only if the size is at most 128 (`AcceptanceCertifiesFullReadIff`); above that there is always a
  file whose unread rest is all zero and which passes (`AcceptedPartialRead`).
- SUCCESS_VERIFIED says that the slack is gone if and only if the system did not decline the tail in
  advance: a non-empty file on a copy-on-write filesystem, or compressed, sparse or encrypted on
  Win32 (`TailDeclined`, `VerifiedTailIff`). `VerifiedOnBtrfs` runs `ShredFile` on such a file.
- `shred_directory` returns true although a listed file may never be overwritten: one whose name is a
  mask of an earlier file is replaced by the masking rename of that file and then skipped
  (`SiblingLost`, `SiblingRunOver`). That is the only way to lose one (`SkippedIff`), and it cannot
  happen if no listed file bears a mask of an earlier one (`Unmasked`, `EveryFileOverwritten`).
- The pass counter wraps for one family of settings (`CounterWraps`).
- A pattern longer than one byte restarts at every buffer (`GloballyPeriodicIff`), yet coverage of
  the Gutmann passes is uniform (`CoverageIsUniform`).

The 35-pass list is that of the overwrite table in section 3 of Gutmann, "Secure Deletion of Data
from Magnetic and Solid-State Memory" (1996); the single zero pass follows section 2.5 of NIST
SP 800-88 Rev. 1.

## Model

| member | source | states |
|---|---|---|
| Passes.ScheduleAgreement | src/sanitizer/file_shredder.cpp:245-300 | every method lays 1, 3, passes plus the optional zero pass, or 35 passes, and the last one is constant zero exactly when the byte check is chosen |
| Passes.CounterWraps | src/sanitizer/file_shredder.cpp:215 | the 32-bit counter misreports a completed run if and only if it is a custom run of 2^32 - 1 noise passes followed by a zero pass |
| Passes.GloballyPeriodicIff | src/sanitizer/file_shredder.cpp:236-243 | a pattern of distinct bytes is repeated over the whole file if and only if the file fits in one buffer or the pattern length divides the buffer size |
| Passes.NoiseIsFresh | src/sanitizer/file_shredder.cpp:225-234 | no two offsets of a noise pass receive the same byte of the same draw |
| Passes.NoiseInRange | src/sanitizer/file_shredder.cpp:225-234 | every offset is covered by one of the (size / B) * ceil(B / 8) + ceil((size mod B) / 8) draws of its pass |
| Passes.NoDrawWasted | src/sanitizer/file_shredder.cpp:225-234 | every draw of a pass covers some offset of the file |
| Passes.PassesDrawDisjointly | src/sanitizer/file_shredder.cpp:262-267 | no draw serves two passes |
| Passes.ZeroEndingLeavesZeros | src/sanitizer/file_shredder.cpp:245-273 | a completed zero-ending run leaves only zeros in the payload |
| Passes.PatternTable | src/sanitizer/file_shredder.cpp:283-284 | the pattern list, spelled out |
| Passes.DrawArithmetic | src/sanitizer/file_shredder.cpp:225-234 | chunk by chunk with a draw of its own at each start: offset o is covered by draw (o / B) * ceil(B / 8) + (o mod B) / 8 of its pass |
| Passes.LaidBytes | src/sanitizer/file_shredder.cpp:245-300 | byte o of pass k, from the settings alone, is what the run lays there |
| Passes.LastBytes | src/sanitizer/file_shredder.cpp:245-300 | the last pass lays zeros, or byte (o mod B) mod 8 of the draw that covers o, counted behind the draws of no, passes - 1 or seven earlier noise passes |
| Passes.EarlierPassByte | src/sanitizer/file_shredder.cpp:245-300 | the passes before it: 0x00 and 0xFF of the DoD schedule, the shuffled patterns at their chunk places, and the draws of every earlier noise pass |
| GutmannCoverage.CoverageIsUniform | src/sanitizer/file_shredder.cpp:283-291 | for any shuffle, buffer size, file size and offset, the 27 fixed passes lay the same multiset of 27 bytes there |
| GutmannCoverage.ColumnOfList | src/sanitizer/file_shredder.cpp:283-284 | at every chunk phase the pattern list yields the coverage multiset: each three rotations yield their three bytes |
| GutmannCoverage.ColumnOfPermutation | src/sanitizer/file_shredder.cpp:285 | shuffling the list does not change which bytes an offset receives |
| Overwrite.Shuffle | src/sanitizer/file_shredder.cpp:285 | a swap loop with arbitrary choices permutes the patterns |
| Overwrite.PassWriter.FillNoise | src/sanitizer/file_shredder.cpp:225-234 | byte i of the chunk is byte i mod 8 of draw i / 8, no copy leaves the chunk, and exactly ceil(chunk / 8) draws are taken |
| Overwrite.PassWriter.FillPattern | src/sanitizer/file_shredder.cpp:236-243 | byte i of the chunk is byte i mod k of the pattern |
| Overwrite.PassWriter.FillConstant | src/sanitizer/file_shredder.cpp:219-223 | the chunk is filled with the constant |
| Overwrite.PassWriter.PrepareChunk | src/sanitizer/file_shredder.cpp:198-201 | the prepared chunk is the slice of the pass's closed-form image at its place, and the generator stands where the closed form says |
| Overwrite.PassWriter.LayChunks | src/sanitizer/file_shredder.cpp:197-210 | the chunk loop lays a prefix of the image over the old bytes under any torn write, the whole image being handed over on success |
| Overwrite.PassWriter.WritePass | src/sanitizer/file_shredder.cpp:191-217 | a completed pass is exactly its image over the payload; a failing one leaves a single cut and is not counted |
| Overwrite.RunNoise | src/sanitizer/file_shredder.cpp:263-267 | a stretch of noise passes completes, or stops in one of them with that pass torn at one cut |
| Overwrite.RunPatterns | src/sanitizer/file_shredder.cpp:287-291 | the same for the shuffled pattern passes |
| Overwrite.RunSchedule | src/sanitizer/file_shredder.cpp:245-300 | the switch runs exactly the plan of the method |
| Overwrite.ExecutePasses | src/sanitizer/file_shredder.cpp:173-304 | every payload byte is that of the last pass that reached it, as given by the settings, the draws and the shuffle: below the cut of a failed call the failing pass, from there on the last completed one, after a success the last pass; the pass count is exact, nothing else changes, and the call fails exactly when a call below it failed |
| Overwrite.FaultSplice | src/sanitizer/file_shredder.cpp:191-304 | after a failed call, bytes below the cut come from pass done + 1, payload bytes from the cut on are the full result of the first done passes, and nothing else changed |
| Overwrite.PerformPasses | src/sanitizer/file_shredder.cpp:173-304 | the payload afterwards is explained by the completed passes and one cut; success means the whole plan ran |
| Overwrite.BytesOfCall | src/sanitizer/file_shredder.cpp:191-304 | the explanation byte by byte, from the settings |
| Entropy.Gibbs | src/sanitizer/file_shredder.cpp:158-166 | n^n <= k^n times the product of f^f for every histogram with k positive counts |
| Entropy.HistogramTotal | src/sanitizer/file_shredder.cpp:134-153 | the 256 counts of any prefix add up to its length |
| Entropy.AcceptanceCertifiesVariety | src/sanitizer/file_shredder.cpp:158-170 | an accepted read holds at least 128 distinct bytes, at least 223 from 1024 bytes on |
| Entropy.EvenBytesAccepted | src/sanitizer/file_shredder.cpp:158-170 | evenly spread bytes are accepted if and only if they reach that variety, so the bounds are tight |
| Entropy.SmallReadRejected | src/sanitizer/file_shredder.cpp:158-170 | no read of 1 to 127 bytes is accepted |
| Entropy.ExactlyAllDistinctAt128 | src/sanitizer/file_shredder.cpp:158-170 | a fully read 128-byte file is accepted if and only if no byte repeats |
| Entropy.PartialReadAcceptedIff | src/sanitizer/file_shredder.cpp:140-171 | a read of fewer than all the bytes can be accepted if and only if the file has more than 128 |
| Threshold.RejectedIff | src/sanitizer/file_shredder.cpp:158-170 | a non-empty read is rejected if and only if some rational upper bound on its entropy, count by count, is below 7, or 39/5 from 1024 bytes on |
| Threshold.OverIsAccepted | src/sanitizer/file_shredder.cpp:158-170 | a rational lower bound at or above the threshold means acceptance |
| Threshold.DyadicAcceptedIff | src/sanitizer/file_shredder.cpp:158-170 | if every value read makes up a fraction 1 / 2^l of the bytes, the read is accepted if and only if the sum of count * l reaches 7 n, or 5 times it 39 n |
| Threshold.MajorityRejected | src/sanitizer/file_shredder.cpp:158-170 | a read in which one value makes up at least half of the bytes is rejected, however many other values it holds |
| Verifiers.VerifyTargetPattern | src/sanitizer/file_shredder.cpp:88-119 | true if and only if the size is 0, or the file opens, has and delivers size bytes, and they all equal the expected byte, for any buffer size |
| Verifiers.CountChunk | src/sanitizer/file_shredder.cpp:148-151 | one chunk turns the histogram of the bytes seen into that of those bytes and the chunk |
| Verifiers.CountBytes | src/sanitizer/file_shredder.cpp:134-153 | the counts are those of the prefix read and sum to its length, whatever the buffer size and the read split |
| Verifiers.CountNext | src/sanitizer/file_shredder.cpp:140-153 | one round of the loop: the counts stay those of what was delivered, and a short read is the last one |
| Verifiers.VerifyEntropy | src/sanitizer/file_shredder.cpp:121-171 | true if and only if the size is 0, or the file opens and no rational upper bound on the entropy of the non-empty prefix read is below the threshold; exact on dyadic reads, false when half of the bytes agree |
| Verifiers.AcceptanceCertifiesFullReadIff | src/sanitizer/file_shredder.cpp:121-171 | over all contents and read sessions, acceptance means that every byte was read if and only if the size is at most 128 |
| Verifiers.AcceptedPartialRead | src/sanitizer/file_shredder.cpp:121-171 | for every size above 128, a file and a session that breaks off early on which the decision is yes, all unread bytes being zero |
| Verifiers.EntropyOverlooksUnreadZeros | src/sanitizer/file_shredder.cpp:121-171 | running verify_entropy there returns true |
| Slack.BoundaryIsNextMultiple | src/sanitizer/platform_fs_posix.cpp:240 | the target size is a multiple of the unit, at most one unit away |
| Slack.Filled | src/sanitizer/platform_fs_posix.cpp:264-281 | byte size + i of the last unit is pattern[i mod length], every other allocated byte is unchanged |
| Slack.TailFromSteps | src/sanitizer/platform_fs_posix.cpp:243-303 | growing, writing any part of the cycle over the tail and restoring leaves the payload and everything past the boundary alone, and makes a completed write the abstract fill |
| SlackPosix.UnitFromAnswers | src/sanitizer/platform_fs_posix.cpp:169-177 | the unit is f_bsize on the FAT, exFAT and NTFS magics if positive, else a positive st_blksize, else 4096 |
| SlackPosix.SkipsFromAnswers | src/sanitizer/platform_fs_posix.cpp:128-238 | each skip is given exactly by its raw answers; nothing else is reported as eliminated before the run |
| SlackPosix.RunsOnlyWhereSafe | src/sanitizer/platform_fs_posix.cpp:128-238 | the file is grown if and only if it has slack, is not copy-on-write and owns a non-inline extent or whole clusters |
| SlackPosix.DeclinedIff | src/sanitizer/platform_fs_posix.cpp:139-167 | a skip leaves the tail of a file as it is if and only if the file is not empty, opens, and lies on a copy-on-write filesystem |
| SlackPosix.ObstaclesAreHonest | src/sanitizer/platform_fs_posix.cpp:128-238 | an early exit claims no bytes and eliminated only where no tail exists |
| SlackPosix.ChooseStrategy | src/sanitizer/platform_fs_posix.cpp:126-238 | the first obstacle decides the result; without one the unit and the mode are those of the filesystem |
| SlackPosix.WriteSlackBytes | src/sanitizer/platform_fs_posix.cpp:268-281 | the write loop ends for finitely many interrupts, lays exactly the buffer on success and never leaves the tail |
| SlackPosix.OverwriteTail | src/sanitizer/platform_fs_posix.cpp:252-291 | exactly the first `reached` bytes of the buffer lie over the tail: none after a failed seek, fewer than all after a failed write, all otherwise; length and medium after each failing step |
| SlackPosix.OverwriteAndRestore | src/sanitizer/platform_fs_posix.cpp:252-302 | the same behind the restoring step: the size is back unless the shrinking call failed, and a success is on the medium |
| SlackPosix.FillTail | src/sanitizer/platform_fs_posix.cpp:240-303 | the run as a whole: payload untouched, exact length condition, abstract fill on success |
| SlackPosix.EliminateSlackSpace | src/sanitizer/platform_fs_posix.cpp:123-311 | in the raw answers: on success every byte from the size to the next multiple of the unit holds the pattern and exactly those are claimed; no slack is reported only where the unit divides the size; eliminated and left-in-place skips have their exact causes; no fault means success; the payload is untouched and the length is back unless the shrinking call failed |
| SlackWin32.SkipsFromAnswers | src/sanitizer/platform_fs_win32.cpp:245-321 | each skip is given exactly by its raw answers; nothing else is reported as eliminated before the run |
| SlackWin32.RunsOnlyWhereSafe | src/sanitizer/platform_fs_win32.cpp:245-321 | the file is grown if and only if it has slack and none of the attributes, filesystems or residency answers that break the in-place assumption |
| SlackWin32.DeclinedIff | src/sanitizer/platform_fs_win32.cpp:256-281 | a skip leaves the tail of a file as it is if and only if the file is not empty and its readable attributes say compressed, sparse or encrypted, or the filesystem is copy-on-write |
| SlackWin32.ObstaclesAreHonest | src/sanitizer/platform_fs_win32.cpp:245-321 | an early exit claims no bytes and eliminated only where no tail exists |
| SlackWin32.SetSize | src/sanitizer/platform_fs_win32.cpp:140-145 | the size changes or nothing does; shrinking keeps every byte |
| SlackWin32.RestoreSize | src/sanitizer/platform_fs_win32.cpp:333-336 | the size is back unless the shrinking call failed, and no byte changes |
| SlackWin32.WriteSlackBytes | src/sanitizer/platform_fs_win32.cpp:351-365 | the capped loop lays exactly the buffer on success and never leaves the tail |
| SlackWin32.OverwriteTail | src/sanitizer/platform_fs_win32.cpp:338-373 | exactly the first `reached` bytes of the buffer lie over the tail: none after a failed seek, fewer than all after a failed write, all otherwise; length and medium after each failing step |
| SlackWin32.OverwriteAndRestore | src/sanitizer/platform_fs_win32.cpp:338-380 | the same behind the restoring step, with the same contract as the POSIX one |
| SlackWin32.FillTail | src/sanitizer/platform_fs_win32.cpp:323-380 | the run as a whole, with the same contract as the POSIX one |
| SlackWin32.EliminateSlackSpace | src/sanitizer/platform_fs_win32.cpp:238-386 | the same for the Win32 answers, the unit being the cluster size |
| SlackWin32.BuildsAgree | src/sanitizer/platform_fs_win32.cpp:323-385 | on equal bytes, with equal unit and pattern, two successes leave identical bytes, length, medium and claim |
| Discard.AlignedLengthIsBoundary | src/sanitizer/platform_fs_win32.cpp:434-437 | the rounded range ends exactly where the slack tail ends |
| Discard.DiscardPosix | src/sanitizer/platform_fs_posix.cpp:321-362 | invoked is reported if and only if the punch was accepted; exactly the payload then reads as zero; if its own sync succeeded, the medium held the whole file at that moment |
| Discard.DiscardWin32 | src/sanitizer/platform_fs_win32.cpp:396-457 | the same up to the next multiple of the cluster size, or of 4096 if that is unknown |
| Namespace.Volume.Rename | src/sanitizer/file_shredder.cpp:337-348 | a rename moves the node to the target, which it replaces unless it is a directory, or changes nothing |
| Namespace.Volume.Remove | src/sanitizer/file_shredder.cpp:360-366 | an entry goes exactly if it is not an occupied directory and the removal is not refused |
| Namespace.MasksAreLonger | src/sanitizer/file_shredder.cpp:350-354 | both full-length masks exceed the name by seven characters |
| Namespace.MaskCharacters | src/sanitizer/file_shredder.cpp:350-357 | a zero for every character of the name, then an A for each, then a name of eight characters; behind them only an underscore and the nonce |
| Namespace.MasksForgetTheName | src/sanitizer/file_shredder.cpp:350-357 | two siblings with names of equal length get the same three masks |
| Namespace.RenameStep | src/sanitizer/file_shredder.cpp:337-357 | one more rename, failing or not, keeps the file under the current path and no visited name besides |
| Namespace.TryRename | src/sanitizer/file_shredder.cpp:337-348 | the closure keeps the tree and the current path in step |
| Namespace.ScrubMetadata | src/sanitizer/file_shredder.cpp:319-369 | the names moved through lie in the same directory and hold nothing of the name but its length; true if and only if all three renames and the unlink succeeded; name by name, exactly the original and the names moved through are gone, but for a last one whose removal is refused; failed renames are counted |
| Namespace.MaskName | src/sanitizer/file_shredder.cpp:337-357 | the three renames, each of which may fail |
| Namespace.ScrubbedNames | src/sanitizer/file_shredder.cpp:319-369 | the tree after a scrub, name by name |
| Namespace.OneNameForTheFile | src/sanitizer/file_shredder.cpp:337-357 | after any renames a name leads to the original file if and only if it is the current path |
| Namespace.ScrubRemovesExactly | src/sanitizer/file_shredder.cpp:350-360 | an unlinked scrub removes just the original entry if and only if no successful rename ran over another entry |
| Namespace.ScrubFrame | src/sanitizer/file_shredder.cpp:319-369 | a scrub keeps directories and everything outside the parent, and without refusals takes the original name away |
| Removal.TurnDecides | src/sanitizer/file_shredder.cpp:508-511 | at its turn a directory is empty and removable if and only if nothing at or below it stays |
| Removal.RemoveDirectories | src/sanitizer/file_shredder.cpp:508-513 | exactly those visited directories go at or below which every entry is a visited directory that may be removed, for any tree and any refusals |
| Removal.SurvivesIff | src/sanitizer/file_shredder.cpp:508-513 | in the final tree a directory survives if and only if a surviving non-directory, unvisited or refused entry is at or below it |
| Removal.WholeTreeGoes | src/sanitizer/file_shredder.cpp:508-513 | with only visited directories left and no refusals the whole tree goes and nothing else |
| Removal.AllGone | src/sanitizer/file_shredder.cpp:489-513 | with a complete listing, every listed file gone and no refusals, exactly the target and what was below it are gone |
| Removal.SelectKeepsOrder | src/sanitizer/file_shredder.cpp:490-501 | the directories collected from a pre-order listing are in pre-order |
| Removal.ListEntries | src/sanitizer/file_shredder.cpp:489-501 | the loop over the iterator collects exactly the regular files and exactly the directories, both in pre-order |
| Audit.SlackPatternAgreement | src/sanitizer/file_shredder.cpp:49-86 | the slack pattern is the single byte 0 for the zero-ending methods, which are those for which the byte check is chosen and the last pass of a non-empty plan is zero, and the random block for all others |
| Audit.ZeroEndToEnd | src/sanitizer/file_shredder.cpp:392-448 | for zero-ending methods, on the medium when the discard is accepted (or at the end, if it is not): after any successful sync, that of the discard included, the payload is 0, and after a slack success every byte up to the unit boundary; success is reported if and only if the file could be read back |
| Audit.NoiseEndToEnd | src/sanitizer/file_shredder.cpp:392-474 | for noise-ending methods: success means at least 128 or 223 distinct bytes, so files of 1 to 127 bytes never succeed |
| Audit.VerifiedTailIff | src/sanitizer/file_shredder.cpp:453-467 | SUCCESS_VERIFIED comes with eliminated slack if and only if the tail was not declined in advance; a declined tail claims no bytes and does not keep a verified, scrubbed call from SUCCESS_VERIFIED |
| Audit.OneByteVerified | src/sanitizer/file_shredder.cpp:453-467 | a zeroed, verified and scrubbed one-byte file ends in SUCCESS_VERIFIED under any skip |
| Audit.VerifiedTailInPlace | src/sanitizer/file_shredder.cpp:453-467 | a concrete record and trace for btrfs and for a compressed NTFS file: SUCCESS_VERIFIED with the tail in place |
| Shredder.VerifiedOnBtrfs | src/sanitizer/file_shredder.cpp:371-475 | shredding a readable and removable non-empty file on btrfs with zeros leaves the tail, and ends in SUCCESS_VERIFIED when no call fails |
| Audit.ReadsZero | src/sanitizer/file_shredder.cpp:392-448 | after a completed call with a zero-ending method the file reads as zero, discarded or not, and up to the unit boundary after a slack success |
| Audit.LaidPayload | src/sanitizer/file_shredder.cpp:392-402 | the payload that a completed call laid, byte by byte |
| Audit.BytesLeft | src/sanitizer/file_shredder.cpp:392-448 | the file after a completed call, byte by byte: zeros where it was discarded, else the last pass over the payload and, after a slack success, the final pattern up to the unit boundary |
| Audit.OrdinaryCall | src/sanitizer/file_shredder.cpp:371-475 | nothing in the way of the slack run, no fault, a readable file: success with the slack eliminated, and zeros up to the unit boundary in the file and on the medium |
| Shredder.ZeroedToBoundary | src/sanitizer/file_shredder.cpp:371-475 | the same for a run of shred_file, ending in SUCCESS_VERIFIED when no rename fails and the last name can be removed |
| Shredder.BytesAfterShred | src/sanitizer/file_shredder.cpp:371-475 | the same for a run of shred_file, under any faults |
| Audit.SlackReads | src/sanitizer/file_shredder.cpp:410-423 | the slack step of either build leaves payload, pattern and old bytes in their places |
| Audit.CompletedAccounted | src/sanitizer/file_shredder.cpp:371-475 | the scrub and the closing status keep the agreement of record, trace, bytes and medium |
| Audit.SanitizedIsSound | src/sanitizer/file_shredder.cpp:371-475 | a record that agrees with its run is sound on its own: status, verification kind, pass count, slack claims and, for noise, the least size all fit together |
| Shredder.FileShredder.EliminateSlack | src/sanitizer/file_shredder.cpp:410-412 | on either build: an obstacle decides the result and nothing changes; without one the run takes place, leaves every byte but the tail, and without a fault it succeeds with the abstract fill on the medium; a skip leaves an existing tail if and only if the probe answers decline it |
| Shredder.FileShredder.FlushAndFill | src/sanitizer/file_shredder.cpp:403-423 | flush and slack run: the payload untouched, the pattern behind it after a success, the old bytes from the unit boundary on |
| Shredder.FileShredder.Verify | src/sanitizer/file_shredder.cpp:426-440 | the byte check passes if and only if all of the payload was read and all of it is zero; the other methods get the entropy decision on the file's own bytes |
| Shredder.FileShredder.DiscardBlocks | src/sanitizer/file_shredder.cpp:443-448 | invoked if and only if accepted; the payload on POSIX and whole clusters on Win32 then read as zero; the medium that its own sync left |
| Shredder.FileShredder.OverwriteStep | src/sanitizer/file_shredder.cpp:392-402 | the engine fails exactly with one fault and a splice; otherwise the payload is the full plan |
| Shredder.FileShredder.TreatPayload | src/sanitizer/file_shredder.cpp:403-448 | verification is decided on the payload the passes left; the medium holds payload and slack pattern when the discard is accepted; the file reads as payload, pattern and old bytes, or as zero where it was discarded; its length is back unless slack failed |
| Shredder.FileShredder.TreatOverwritten | src/sanitizer/file_shredder.cpp:403-448 | the same in terms of the run that laid the payload and of the bytes before the call |
| Shredder.FileShredder.Sanitize | src/sanitizer/file_shredder.cpp:392-448 | either the overwrite failed, with a splice and an untouched length, or record, trace, medium, bytes and length agree with a complete run |
| Shredder.FileShredder.Conclude | src/sanitizer/file_shredder.cpp:453-467 | each of the three closing statuses holds exactly under its condition |
| Shredder.FileShredder.ScrubAndConclude | src/sanitizer/file_shredder.cpp:450-470 | the scrub changes no byte; the record keeps its fields and gets its closing status |
| Shredder.FileShredder.ShredRegular | src/sanitizer/file_shredder.cpp:388-470 | a failed overwrite leaves the name, the length and a splice; otherwise record, bytes, length and tree agree; a call in which nothing failed is flushed, its slack run successful and its discard accepted |
| Shredder.FileShredder.ShredFile | src/sanitizer/file_shredder.cpp:371-475 | one appended sound record, true if and only if its status is a success, skipped if and only if the name is no regular file; the bytes and the length of the file, and the tree, agree with it under any faults; failed renames are counted |
| Shredder.FileShredder.ShredTracked | src/sanitizer/file_shredder.cpp:371-475 | the same with all files of the volume in view: no file but the one named changes its bytes, length or medium |
| Shredder.FileShredder.ShredEntry | src/sanitizer/file_shredder.cpp:503-506 | one file of a directory: record and trace agree with what its call found and left, and the tree is exactly that of the call: its own name goes, and so does a sibling whose name one of its masking renames ran over; every other entry stays |
| Runs.TurnOfFiles | src/sanitizer/file_shredder.cpp:503-506 | one more file keeps the accounts of all earlier files and leaves all later ones untouched |
| Runs.TurnOfCalls | src/sanitizer/file_shredder.cpp:503-506 | one more call extends the tree, the skips and the failed renames of the run |
| Shredder.FileShredder.ShredNext | src/sanitizer/file_shredder.cpp:503-506 | the invariant of the file loop: evidence for every record so far, an account for every file so far |
| Shredder.FileShredder.ShredFiles | src/sanitizer/file_shredder.cpp:503-506 | one sound record per file in listing order, each backed by a trace of its own call; the tree afterwards is exactly that of the calls; call i skips its file if and only if the calls before it left no regular file there; every file, overwritten or skipped, is accounted for from the start of the stage to its end, unless a listed name is the mask of an earlier file and cannot be removed |
| Runs.NameAwaits | src/sanitizer/file_shredder.cpp:350-357 | a name that no call can end under leads to its own file, or nowhere exactly once a masking rename ran over it |
| Runs.SkippedIff | src/sanitizer/file_shredder.cpp:350-357 | a listed file is skipped if and only if a masking rename of an earlier completed call ran over its name |
| Runs.UnmaskedNoneSkipped | src/sanitizer/file_shredder.cpp:350-357 | if no listed file bears a mask of an earlier one, none is skipped |
| Runs.EveryFileOverwritten | src/sanitizer/file_shredder.cpp:503-506 | then every listed file went through the overwrite, successfully or as a recorded failure, and its bytes are accounted for |
| Runs.EveryFileZeroed | src/sanitizer/file_shredder.cpp:503-506 | with a zero-ending method every listed file then reads as zero, or its record says that the overwrite failed |
| Runs.OneRecordEach | src/sanitizer/file_shredder.cpp:503-506 | one record for every regular file of the listing, and no other |
| Runs.ListedZeroed | src/sanitizer/file_shredder.cpp:503-506 | the zero result in terms of the listing and the old tree |
| Runs.RunOverIsLost | src/sanitizer/file_shredder.cpp:350-357 | a listed file that was run over is skipped and holds at the end the bytes it had at the start |
| Runs.SiblingLost | src/sanitizer/file_shredder.cpp:350-357 | a directory of two files, the second named like the short mask of the first: a run that ends with SUCCESS_VERIFIED for the first, the second skipped with its bytes in place, and neither name left |
| Runs.RunEndToEnd | src/sanitizer/file_shredder.cpp:503-506 | the zero and the noise result for every record of a run |
| Runs.DirectoryZeroEndToEnd | src/sanitizer/file_shredder.cpp:503-506 | after a whole stage with a zero-ending method, every file that got past the overwrite reads as zero, and its medium is zero wherever its record says so |
| Shredder.FileShredder.ShredListedFiles | src/sanitizer/file_shredder.cpp:489-506 | the files of a listing go through the file stage, and its directories are handed on in pre-order, all still in place |
| Shredder.FileShredder.ShredListed | src/sanitizer/file_shredder.cpp:489-513 | both stages: the exact final tree, and the evidence, skips and accounts of the file stage |
| Runs.WholeDirectoryGone | src/sanitizer/file_shredder.cpp:489-513 | with a complete listing, no refusals and no failed overwrite, exactly the directory and what was below it are gone |
| Shredder.FileShredder.ShredDirectory | src/sanitizer/file_shredder.cpp:477-515 | true for every directory; every record is backed by a trace, every skip explained and every file accounted for; the final tree is exactly determined; the whole directory goes under the condition above |
| Shredder.DirectoryZeroed | src/sanitizer/file_shredder.cpp:477-515 | running shred_directory with a zero-ending method on a listing in which no file bears a mask of an earlier one: every listed file reads as zero afterwards or its record says that the overwrite failed |
| Shredder.SiblingRunOver | src/sanitizer/file_shredder.cpp:477-515 | running shred_directory on two files returns true; the second is skipped, its bytes unchanged, if and only if a rename of the first ran over it, which without failing renames is so exactly if it bears a mask of the first |
| Shredder.FileShredder.ShredAlone | src/sanitizer/file_shredder.cpp:517-531 | a single call as a run of one file: skipped if and only if it is no regular file |
| Shredder.FileShredder.ShredTree | src/sanitizer/file_shredder.cpp:521-528 | the recursive branch in terms of the listing and the old tree |
| Shredder.FileShredder.Shred | src/sanitizer/file_shredder.cpp:517-531 | with the recursive option exactly one new record per regular file of the listing; with a zero-ending method and no mask among the later names each of these files reads as zero or its record says that the overwrite failed; without refusals and failures, and with a complete listing, exactly the directory and what was below it go; a single file is skipped if and only if it is none; records are append-only and stay sound; a directory without the option changes nothing |
| Store.File.Truncate | src/sanitizer/platform_fs_posix.cpp:243-300 | growing exposes arbitrary bytes, shrinking keeps all of them, failing changes nothing |
| Store.InStream.Read | src/sanitizer/file_shredder.cpp:103-106 | bytes arrive in order; after a short read nothing more does |

## Left out

- `main_cli.cpp`, `PosixBlockDevice` and `AlignedBuffer`: argument parsing, privilege checks and thin wrappers over device calls.
- `export_audit_json`, timestamps, standard names and console messages: string output without a reader to compare with.
- The numeric value of `calculated_entropy`: the verifier model decides the threshold in exact integers; floating-point rounding of `log2` is not modelled, and 7.80 is taken as 39/5.
- A buffer size of 0: the chunk loop makes no progress then (`file_shredder.cpp` lines 198 to 210), so the model requires a positive one.
- Integer widths other than the pass counter and the DWORD of WriteFile: sizes are natural numbers.
- `fs::file_size` failing, hard links, symbolic links, concurrent writers and names longer than the filesystem allows.
- The order of the fields in the audit record and the filesystem name in it; error numbers inside FAILED statuses.
- Physical behaviour that the source assumes away: SSD remapping, journals, zeroing of a partial page on truncation, NTFS valid data length.
- The rewriting of a partly drained buffer that some stream libraries perform on close: a stream hands each byte to its own offset.
- Store.File.Write: models writes within the file only; the sanitiser never extends a file by writing.
- A removal that is refused at one moment and accepted at another: refusals belong to a path for the whole run.
- Shredder.FileShredder.ShredFiles: accounts for the final bytes of every file only if no listed file bears a mask of an earlier one and is refused removal; otherwise an earlier file may stand under a name that is still to come and be shredded again, and each record then speaks only of its own call.
