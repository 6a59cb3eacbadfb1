# disksize: the capacity prober, modelled in Dafny

`disksize` checks whether a raw block device really holds the capacity it
reports. Counterfeit flash often drops high address lines, so writes past the
real size land on low addresses. To catch this, `main` probes a schedule of
addresses with `readbacktest`:

- each probe snapshots a *shadow* block and the *probe* block;
- it writes a test pattern, reads it back and counts mismatches;
- it restores the probe block, re-reads the shadow and counts corruption;
- any error, and any non-zero count, ends the program with `exit(-1)`.

The schedule first doubles from 1 MiB, then bisects towards the reported size.

The model has seven modules, one per layer of the program:

| file | module | what it models |
|---|---|---|
| `media.dfy` | `Media` | The medium: a sequence of byte cells. Logical address `a` lands on cell `a % |cells|`. A medium smaller than the reported size therefore aliases high addresses onto low ones. `Block` and `Put` are reading and storing a range on it. |
| `transport.dfy` | `Transport` | `checkedread` and `checkedwrite` as methods of a `Device` class. The class holds the medium as an `array<byte>` and a script of the kernel's answers, one per transaction. Every way a transaction can fail becomes a `Fatal` value in place of `exit(-1)`. |
| `sectors.dfy` | `Sectors` | The sector size `main` settles on: the size the `BLKSSZGET` ioctl reports, replaced on a GPT-partitioned device by the size at which the GPT header is found. |
| `probe.dfy` | `Probe` | `readbacktest` as the method `ReadbackTest`, with its four stack buffers and its two counting loops. The method is proved equal to a pure specification, `ProbeSpec`, which is staged the way the C code runs. |
| `probe_facts.dfy` | `ProbeFacts` | What a probe promises, proved on `ProbeSpec`. |
| `campaign.dfy` | `Campaigns` | A run of probes, one after another, that stops at the first fatal one. |
| `scheduler.dfy` | `Scheduler` | The two probing loops of `main`. They are proved to issue exactly the requests of `Schedule(totalsize)`. |

The kernel's answers are modelled as a script fixed in advance and otherwise
unconstrained, one answer per transaction: `Device.replies(n)` is the answer
to transaction `n`. An answer gives:

- whether `open` succeeds, or the errno it fails with;
- where `lseek` lands;
- the count `read` or `write` returns;
- whether `fsync` and `close` succeed;
- a per-byte noise, added modulo 256 to the bytes moved. A faithful device has zero noise.

Every property below holds for every script that meets the hypotheses of its lemma. Many of the lemmas assume the healthy answer `Clean` for some or all transactions, and say so.

## Model

The probe's specification is the function `Probe.ProbeSpec`. It runs in
stages the way the C code does: `Snapshot`, `Exercise`, `Restore`,
`Conclude`. The schedule's specification is `Scheduler.Schedule`, built from
`Phase1` and `Bisect`. These functions only compute, so the table names the
lemmas and methods whose contracts state facts about them.

| member | source | states |
|---|---|---|
| `Transport.OpenFault` | disksize.c:73-91 | Definition of the open-failure switch: ENODEV, ENXIO and ENOMEDIUM stop as "no device", ENOENT as missing, EPERM and EACCES as not allowed, and any other errno as an open error with that errno. |
| `Transport.Fault` | disksize.c:72-119 | Definition of the fatal error a checked transfer stops with: the first failing check in the order open, seek, transfer count, fsync, close, or none. `NoPartialSuccess` states what it means. |
| `Transport.Landing` | disksize.c:92 | Definition of what `lseek` returns: the requested offset, -1 for a negative offset, or whatever other value the answer gives. The same call is at disksize.c:144. |
| `Transport.Returned` | disksize.c:102 | Definition of the count `read` returns: the whole length, or whatever other count the answer gives. `write` at disksize.c:154 returns it the same way. |
| `Transport.NoPartialSuccess` | disksize.c:71-120 | A checked transfer succeeds exactly when `open` succeeded, the offset is non-negative, `lseek` landed on it, the whole length moved, and `fsync` and `close` succeeded. On success every byte moved. A short count is always fatal. |
| `Transport.CleanTransfer` | disksize.c:92-119 | On healthy hardware a transfer to a non-negative offset succeeds and moves every byte unchanged. |
| `Transport.Device.CheckedRead` | disksize.c:71-120 | Uses one transaction. Its fault is the first failing check, in the order open, seek, read, fsync, close. The buffer holds the device bytes `[address, address + moved)` as delivered, and every other buffer byte is unchanged. |
| `Transport.Device.CheckedWrite` | disksize.c:123-172 | Uses one transaction, with its fault as for `CheckedRead`. The cells reached by the moved bytes hold those bytes as stored, and every other cell is unchanged. |
| `Transport.Device.constructor` | disksize.c:23-24 | A device over the given medium, sector size and script of answers, before its first transaction. |
| `Transport.Moved` | disksize.c:102-111 | The number of bytes the device really moved never exceeds the size requested. |
| `Media.Block` | disksize.c:102 | Definition of what a read at logical address `a` finds: the `n` cells `a % |cells|`, `(a + 1) % |cells|`, and so on. |
| `Media.Put` | disksize.c:154 | Definition of a store from logical address `a`: the cells the transfer reaches take the new bytes, every other cell keeps its value. |
| `Media.ReadAfterWrite` | disksize.c:154 | Reading back a range just stored gives exactly the stored bytes, also on a medium that folds the range. |
| `Media.WriteBackIdentity` | disksize.c:228 | Storing the bytes already present changes no cell. |
| `Media.PutTwice` | disksize.c:210-228 | A second store over the same range hides the first entirely. |
| `Media.OverwriteThenRestore` | disksize.c:210-228 | Storing the pattern and then the old contents restores the whole medium, whatever the range folds onto. |
| `Media.BlockInRange` | disksize.c:102 | A range that does not reach the end of the medium reads as the plain slice of the cells. |
| `Media.PutInRange` | disksize.c:154 | A store on such a range replaces exactly the bytes `[at, at + |d|)` and keeps every other byte. |
| `Probe.CRem` | disksize.c:203 | C's `%` on `off_t`: for a non-negative address the shadow lies in `[0, modulo)`. |
| `Probe.Pattern` | disksize.c:207-209 | Definition of probe `i`'s test block: `blocksize` bytes, byte `n` being `(i + n) mod 256`. |
| `Probe.PatternDeterministic` | disksize.c:207-209 | Probes whose numbers differ modulo 256 write different bytes at every position. The pattern of `i + 256` is that of `i`. |
| `Probe.PatternResidue` | disksize.c:207-209 | Probes whose numbers are equal modulo 256 write the same pattern. |
| `Probe.Mismatches` | disksize.c:214-241 | Counts the differing positions among the first `n`; the count is at most `n`. |
| `Probe.Note` | disksize.c:219-224 | Definition of what the `count`-th difference prints: its detail line below ten, "..." at ten, nothing after. The shadow loop at disksize.c:234-239 prints the same way. |
| `Probe.MismatchLog` | disksize.c:216-226 | Definition of what the read-back comparison prints: for each differing byte, the line `Note` gives for its place in the count. |
| `Probe.CorruptionLog` | disksize.c:231-241 | Definition of the same for the shadow comparison. |
| `Probe.MismatchesZeroIff` | disksize.c:216-218 | The count is zero exactly when the two prefixes are equal. |
| `Probe.MismatchLogBounded` | disksize.c:219-224 | The read-back comparison prints one detail line for each of the first nine mismatches, and exactly one "..." once the count reaches ten. |
| `Probe.CorruptionLogBounded` | disksize.c:234-239 | The same bound for the shadow comparison. |
| `Probe.QuietWhenEqual` | disksize.c:216-239 | Comparing equal blocks prints nothing. |
| `Probe.NoteLines` | disksize.c:219-224 | One difference adds a detail line while the count is below ten, and "..." at ten. |
| `Probe.LinesAppend` | disksize.c:219-239 | Counts of printed lines add up over concatenated logs. |
| `Probe.CountMismatches` | disksize.c:214-226 | The read-back loop's count and printed lines, bounded by the sector size, as `Mismatches` and `MismatchLog` state them. |
| `Probe.CountMismatchesAsWritten` | disksize.c:214-226 | The same loop run to MAXBLOCKSIZE as written, which compares all 4096 bytes of the buffers. |
| `Probe.MismatchCounted` | disksize.c:216-218 | Any one difference below the bound makes the count non-zero. |
| `Probe.StaleTailCounts` | disksize.c:216 | When the sector is shorter than MAXBLOCKSIZE, a block read back faithfully passes the sector-bounded count. It still fails the count as written once any byte past the sector differs between the pattern and read-back buffers. |
| `Probe.StaleTailExample` | disksize.c:216 | The instance with a 512-byte sector and stale bytes 0 and 1 at position 512. |
| `Probe.CountCorruption` | disksize.c:229-241 | The shadow loop's count and printed lines. |
| `Probe.ReadOf` | disksize.c:71-120 | Definition of the bytes one checked read delivers: the block at the address, with the answer's noise added. |
| `Probe.WriteOf` | disksize.c:123-172 | Definition of the medium after one checked write: the bytes the device really moved, as stored, put at the address. |
| `Probe.ProbeSpec` | disksize.c:197-204 | Definition of a probe: the probe block is one block below the offset, the shadow is its address in C's `%` by the modulus, and the shadow is read first. A failing read ends the probe. |
| `Probe.Snapshot` | disksize.c:205-209 | Definition of the next stage: the probe block is read and the pattern prepared. |
| `Probe.Exercise` | disksize.c:210-212 | Definition of the next stage: the pattern is written and read back. |
| `Probe.Restore` | disksize.c:214-230 | Definition of the next stage: the read-back is compared, then the original is written back and the shadow re-read. |
| `Probe.Conclude` | disksize.c:231-248 | Definition of the last stage: the shadow comparison, the corrective write on corruption, and the verdict. |
| `Probe.ReadbackTest` | disksize.c:197-249 | Outcome, printed lines, final medium and number of transactions are exactly those of `ProbeSpec`. |
| `Sectors.FirstHeader` | disksize.c:338-343 | Definition of the scan's verdict: the first doubling from 512 at which the GPT signature is found, or the first doubling past 4096. |
| `Sectors.ScanGpt` | disksize.c:338-343 | The header scan returns the first of 512, 1024, 2048 and 4096 at which the GPT signature is found, and 8192 exactly when it is found at none of them. |
| `Sectors.NoHeaderOverflows` | disksize.c:338-344 | With no header at any size tried, the scan ends at 8192, twice MAXBLOCKSIZE. |
| `Sectors.SectorSizeAsWritten` | disksize.c:306-344 | The sector size as the code leaves it: the reported size without GPT, and otherwise the scan's result, which is 8192 when no header is found. |
| `Sectors.SectorSize` | disksize.c:306-345 | The corrected sector size: the header's size when the scan found one, otherwise the reported size. It stays within 4096 when the reported size does. |
| `Sectors.Open` | disksize.c:306-345 | The device the probes run on gets that sector size, the medium and the script of answers, before its first transaction. |
| `Probe.SnapshotStage` | disksize.c:205-209 | The probe-block read and the pattern fill implement `Snapshot`. |
| `Probe.ExerciseStage` | disksize.c:210-212 | The pattern write and the read-back implement `Exercise`. |
| `Probe.RestoreStage` | disksize.c:214-230 | The comparison, the restore and the shadow re-read implement `Restore`. |
| `Probe.ConcludeStage` | disksize.c:231-248 | The shadow comparison and the corrective write implement `Conclude`. |
| `ProbeFacts.FirstFaultIsFatal` | disksize.c:204-230 | The first failing transaction ends the probe. Its error is the outcome, and it is the last transaction issued. |
| `ProbeFacts.FaultLeavesCells` | disksize.c:204-230 | When transaction `k` is the first to fail, the probe leaves the medium untouched if `k` is one of the two snapshot reads. After the pattern write it leaves what that write stored, and after the restore what the restore stored. Nothing is put back on the way out. |
| `ProbeFacts.ReadBackFaultLeavesPattern` | disksize.c:210-212 | When the two snapshot reads and the pattern write are healthy and the read-back fails, the probe is fatal and the probe block holds the pattern, not the original data. |
| `ProbeFacts.SmoothReachesConclude` | disksize.c:204-230 | With six good transactions the probe reaches its final comparison on the bytes it observed. |
| `ProbeFacts.Verdict` | disksize.c:214-248 | With six good transactions: mismatch is zero exactly when the read-back equals the pattern, and corruption is zero exactly when the re-read shadow equals its snapshot. The corrective write happens exactly on corruption. The probe passes exactly when both counts are zero. Otherwise it stops with both counts, unless there was corruption and the corrective write failed; then it stops with that write's error. |
| `ProbeFacts.VerdictLog` | disksize.c:219-239 | Such a probe prints `min(m, 9)` mismatch lines and `min(c, 9)` corruption lines, plus one "..." per count that reached ten. |
| `ProbeFacts.ConcludeLog` | disksize.c:231-241 | The final comparison appends the corruption lines to what was printed before. |
| `ProbeFacts.PassIff` | disksize.c:204-248 | A probe passes exactly when all six transactions succeed, the read-back equals the pattern and the shadow equals its snapshot. A passing probe prints nothing and uses six transactions. |
| `ProbeFacts.FirstFault` | disksize.c:204-230 | A run of transactions that is not all successful has a first failure. |
| `ProbeFacts.LogBounded` | disksize.c:219-239 | Whatever the device answers, a probe prints at most nine detail lines per count and at most two "..." in all. |
| `ProbeFacts.LogEmptyBeforeRestore` | disksize.c:204-212 | A probe that fails before its comparison prints nothing. |
| `ProbeFacts.LogAfterReadBack` | disksize.c:214-230 | A probe that fails at the restore or the shadow re-read prints exactly the read-back comparison. |
| `ProbeFacts.CleanProbePasses` | disksize.c:204-246 | On healthy hardware the probe passes, prints nothing, uses six transactions and leaves every cell as it was. This holds on a medium of any physical size of at least one sector. |
| `ProbeFacts.GarbledPatternIsFatal` | disksize.c:210-226 | If the noise of the pattern write and its read-back do not cancel at some byte, the probe does not pass. |
| `ProbeFacts.GarbledRead` | disksize.c:210-212 | Once the pattern write succeeds, noise that does not cancel at one byte makes the block read back differ from the pattern. |
| `ProbeFacts.GarbledBack` | disksize.c:210-218 | A block written and read back with non-cancelling noise at one byte differs from the block written. |
| `ProbeFacts.WrittenThenRead` | disksize.c:210-212 | After a successful write, a byte read back is the byte written, altered by the write's noise and then the read's. |
| `ProbeFacts.CorrectiveWriteTarget` | disksize.c:242-248 | When the first six transactions succeed, the re-read shadow differs from its snapshot and the seventh transaction is clean, the corrective write stores the shadow's snapshot into the probe block, not the shadow. The outcome carries both counts. |
| `ProbeFacts.ShadowBelowProbe` | disksize.c:202-203 | When `blocksize <= modulo <= address`, the shadow block lies wholly below the probe block. |
| `Campaigns.Advance` | disksize.c:439-450 | Issuing a request counts one more probe and never gives back transactions. |
| `Campaigns.RunFrom` | disksize.c:436-453 | A run over the remaining requests issues at most one probe per request. |
| `Campaigns.Campaign` | disksize.c:436-453 | Definition of `main`'s run: the requests issued one after another from the start, until one is fatal. |
| `Campaigns.RunStops` | disksize.c:246-248 | A run either issues every request and passes, or ends with a fatal outcome after at least one probe. A run that issued fewer than all requests is fatal. Lines printed and transactions used before are kept. |
| `Campaigns.NothingAfterAbort` | disksize.c:246-248 | A run stops at its first fatal probe: once it has ended with an abort, appending further requests leaves it exactly as it was. |
| `Campaigns.Probing` | disksize.c:197-249 | Definition of `readbacktest` as the probe the run uses: `ProbeSpec` on every request with a positive modulus on a medium of at least one sector. |
| `Campaigns.ProbingRealizes` | disksize.c:197-249 | The probe semantics built from `ProbeSpec` is what `readbacktest` does on every request the program can issue. |
| `Campaigns.Issue` | disksize.c:439 | Calling `readbacktest` advances the run exactly as `Advance` states. |
| `Campaigns.AdvanceRealized` | disksize.c:439 | Advancing a run is one `ProbeSpec` step. |
| `Campaigns.CleanProbing` | disksize.c:204-246 | On healthy hardware a probe of the schedule passes in six transactions and changes nothing. |
| `Campaigns.CleanRunFrom` | disksize.c:436-453 | When every probe passes without changing the medium, the run issues every request, prints nothing and uses six transactions per request. |
| `Scheduler.Phase1` | disksize.c:436-441 | Definition of the doubling loop's requests from the `k`-th doubling on, while the doubling fits in the reported size. |
| `Scheduler.Gap` | disksize.c:447 | Definition of `totalsize - offset` as the unsigned 64-bit subtraction computes it. |
| `Scheduler.Bisect` | disksize.c:445-451 | Definition of the halving loop's requests while the unsigned gap exceeds 1 MiB, each at the midpoint with the fixed modulus. |
| `Scheduler.Schedule` | disksize.c:436-452 | Definition of every request `main` issues: phase 1, then phase 2 from half the first doubling that did not fit, when that doubling is not the size itself. |
| `Scheduler.Phase1From` | disksize.c:436-441 | Phase 1 from doubling `k`: entry `j` probes at doubling `k + j`, with half of it as modulus and sequence number `k + j`. There is one entry for each doubling that fits in the reported size. |
| `Scheduler.Phase1Probes` | disksize.c:436-441 | Phase 1 probes at `1 MiB * 2^k`, with modulus half of that and sequence number `k`, for exactly the `k` with `1 MiB * 2^k <= totalsize`. |
| `Scheduler.Phase1Stops` | disksize.c:438-441 | For a size of at least 1 MiB, phase 1 issues at least one probe, and the reported size lies between the last offset probed and its double. |
| `Scheduler.Phase1Overshoots` | disksize.c:442 | After phase 1 the offset exceeds the reported size, so the test `offset != totalsize` always holds. |
| `Scheduler.TwoMiBSchedule` | disksize.c:436-452 | A 2 MiB device is probed at (1 MiB, 512 KiB, 0) and (2 MiB, 1 MiB, 1) and nowhere else. |
| `Scheduler.BisectStep` | disksize.c:447-449 | One phase-2 step below the reported size: the midpoint lies at least half a MiB above the offset and not above the reported size. The gap shrinks to its ceiling half. |
| `Scheduler.BisectShape` | disksize.c:445-451 | Every phase-2 probe keeps the modulus, takes the next sequence number, and stays at or below the reported size. |
| `Scheduler.BisectModulus` | disksize.c:446-450 | Every phase-2 probe uses the modulus phase 2 started with. |
| `Scheduler.BisectMidpoints` | disksize.c:449 | Each phase-2 offset is the midpoint of the previous offset and the reported size. |
| `Scheduler.BisectAbove` | disksize.c:447-450 | Phase-2 offsets lie at least half a MiB above where phase 2 started. |
| `Scheduler.BisectIncreases` | disksize.c:447-450 | Phase-2 offsets strictly increase, each at least half a MiB above the previous one. |
| `Scheduler.BisectEnds` | disksize.c:447-452 | Phase 2 issues a probe exactly when the gap exceeds 1 MiB. It ends with the last offset within 1 MiB of the reported size. |
| `Scheduler.BisectLength` | disksize.c:447-451 | Within a gap of `1 MiB * 2^n`, phase 2 issues at most `n` probes. |
| `Scheduler.ScheduleLength` | disksize.c:436-452 | A device of at least 1 MiB and below `1 MiB * 2^n` is probed at most `2n - 1` times. |
| `Scheduler.PowerOfTwoStops` | disksize.c:442-451 | A reported size of 512 KiB times `2^n` is probed exactly at the `n` doublings that fit, and phase 2 issues nothing. |
| `Scheduler.SmallDeviceWraps` | disksize.c:442-450 | Below 512 KiB the unsigned subtraction wraps. Such a device is still probed, at an offset between its end and 512 KiB. |
| `Scheduler.ScheduleGeometry` | disksize.c:436-451 | For every probe of a device of at least 512 KiB: the modulus is at least 512 KiB, the offset is at most the reported size, and the probe address is at least the modulus. |
| `Scheduler.ScheduleDisjoint` | disksize.c:201-203 | For every probe of such a device and every sector size up to 4096, the shadow block lies wholly below the probe block, so the two are disjoint. |
| `Scheduler.Phase1Geometry` | disksize.c:438-439 | The same for the phase-1 probes. |
| `Scheduler.Phase2Geometry` | disksize.c:445-450 | The same for the phase-2 probes. |
| `Scheduler.SchedulePositive` | disksize.c:439-450 | Every modulus is positive, so every shadow address is defined. |
| `Scheduler.CleanRun` | disksize.c:436-453 | On healthy hardware reporting at least 512 KiB, the run issues the whole schedule, passes, prints nothing and leaves the medium as it was. |
| `Scheduler.ExitStatus` | disksize.c:246-247 | Definition of the exit status: 0 after a run that passed (`exit(0)` at disksize.c:453), -1 after a fatal probe. |
| `Scheduler.Run` | disksize.c:436-453 | The two loops have exactly the effect of running `Schedule(totalsize)`, and the exit status is 0 exactly when no probe was fatal. |
| `Scheduler.Doublings` | disksize.c:436-441 | A fatal phase-1 probe ends the run with the run's result. Otherwise the loop ends after the phase-1 probes, with `offset` the first doubling past the size and `i` their number, and the rest of the run is the rest of the schedule. |
| `Scheduler.DoublingRound` | disksize.c:439-440 | One phase-1 iteration probes at the current doubling, with half of it as modulus, as the next request of the schedule. |
| `Scheduler.Phase1Next` | disksize.c:438-440 | While the doubling fits, the next phase-1 request probes there, and phase 1 goes on from the doubled offset. |
| `Scheduler.Bisection` | disksize.c:445-451 | The phase-2 loop has exactly the effect of running the schedule's phase-2 requests, stopping at a fatal probe. |
| `Scheduler.BisectRound` | disksize.c:448-450 | One phase-2 iteration moves half way to the reported size and probes there as the next request. |
| `Scheduler.BisectNext` | disksize.c:447-450 | While the gap exceeds 1 MiB, the next request is at the midpoint and the distance to the reported size shrinks. |
| `Scheduler.BisectDone` | disksize.c:447 | Once the gap is at most 1 MiB, no phase-2 request remains. |

### Where the code departs from its intent

This model follows the code.

- **The corrective write.** After corruption the code writes the shadow's snapshot to the probe address (disksize.c:244), not back to the shadow. `ProbeFacts.CorrectiveWriteTarget` states what the code does.
- **Restoring after a failure.** The program tells its user that it tries not to corrupt the data on the device (disksize.c:417), so a probe should put back what it wrote even when a read or write fails mid-probe. The code exits at the first failing transaction and restores nothing (`ProbeFacts.FirstFaultIsFatal`, `ProbeFacts.FaultLeavesCells`). A read-back that fails (disksize.c:212) after a good pattern write (disksize.c:210) leaves the pattern on the probe block (`ProbeFacts.ReadBackFaultLeavesPattern`).
- **Aliasing detection.** The probe block is restored (disksize.c:228) before the shadow is re-read (disksize.c:230). On a device reporting at least 512 KiB, on a medium that only folds addresses, with no other fault, every probe therefore passes, whatever the fold (`ProbeFacts.CleanProbePasses`, `Scheduler.CleanRun`). `CleanProbePasses` holds for a medium of any physical size of at least one sector, and `CleanRun` for one of at least 4096 cells, the smallest `Device.Valid` admits. So the promise of the comment at disksize.c:432-434, that checking modulo the largest power of two below the probe address catches a device ignoring the highest address bit, does not hold for the code. Only noise in the transfers makes a mismatch or a corruption visible (`ProbeFacts.GarbledPatternIsFatal`).
- **The phase-2 guard.** The test at disksize.c:442 always holds, because phase 1 leaves `offset` above `totalsize` (`Scheduler.Phase1Overshoots`). A size of 512 KiB, or 1 MiB times a power of two, enters phase 2 with a gap of 0 and issues no further probe (`Scheduler.PowerOfTwoStops`). A smaller power of two enters phase 2 with a wrapped gap and is probed (`Scheduler.SmallDeviceWraps`).
- **The unsigned subtraction.** Phase 2 tests `totalsize - offset > 1 MiB` as an unsigned 64-bit subtraction (`Gap`), which wraps below 512 KiB (`Scheduler.SmallDeviceWraps`). The model keeps the wrap and does not require a size of at least 1 MiB.
- **Midpoints.** Phase-2 midpoints `(offset + totalsize) / 2` need not be block-aligned. The model does not require them to be.

## Left out

- `human`, `confirm` and the two Y/N prompts: floating-point formatting and terminal input.
- The root, argument and `/dev/` checks, and the `BLKGETSIZE64`/`BLKSSZGET` ioctls. `totalsize` is a parameter of `Scheduler.Run`, and the size `BLKSSZGET` reports is a parameter of `Sectors.Open`.
- Sectors.Open: requires the reported sector size to lie in `1..4096`. The code does not check it; a larger reported size would overflow the probe's 4096-byte buffers as the 8192 of the Findings does.
- The reads behind the sector-size choice: the MBR read at disksize.c:331 and the header reads at disksize.c:339 are taken as successful, and their results are inputs of `Sectors` (`mbrType`, `isHeader`).
- The rest of the GPT branch (disksize.c:345-387) and `partitions`: their printed output is display only, and their reads are taken as successful. Those reads are the `checkedread` calls at disksize.c:361, 366 and 383 and in `partitions` at disksize.c:180 and 186. A failing one ends the program with `exit(-1)` before the first probe. Their data changes no state the probes use.
- The `/proc/mounts` scan: it is a safety gate, taken as passed.
- The exact text of each `printf`. Only the fatal error kind is kept, and the detail lines with the values they show.
- The real semantics of `open`, `fsync` and `close`, and descriptor lifetime. Each checked transfer is one atomic transaction, and the kernel's answer to it is an input (`Device.replies`).
- Process exit: `exit(-1)` becomes an `Abort` outcome that ends the run. The status `main` returns is `Scheduler.ExitStatus`.
- Byte contents of the C stack buffers past the sector size: `ReadbackTest` allocates fresh buffers and compares only the sector (see Findings).
- Scheduler.Run: requires `totalsize < 2^62`, so that doubling the `off_t` offset cannot overflow. The signed overflow beyond that is not modelled.
- Campaigns.Probing: on a request `readbacktest` cannot receive (a non-positive modulus or a medium smaller than a sector) it is defined to do nothing. The program never issues such a request (`Scheduler.SchedulePositive`, `Device.Valid`).

## Findings

| source | as written | input that shows it | evidently intended | confidence | as-written member | corrected member |
|---|---|---|---|---|---|---|
| disksize.c:344 | After the header scan, `blocksize = size` is assigned whether or not a header was found. When none is found at 512..4096, the sector size becomes 8192, and `readbacktest` then transfers 8192 bytes into its 4096-byte buffers. | A protective MBR (type 0xEE at byte 450) whose GPT header is missing or damaged at every size tried. | Keep the reported sector size when no header is found, as the message "Could not find GPT header" suggests. | not executed | `Sectors.SectorSizeAsWritten`, `Sectors.NoHeaderOverflows` | `Sectors.SectorSize` |
| disksize.c:216 | The read-back comparison loops `n < MAXBLOCKSIZE`. It compares all 4096 bytes of `writedata` and `readbackdata`, although only `blocksize` bytes were filled and read back. The rest is uninitialised stack memory. | `blocksize = 512`, a faithful device, `writedata[512] = 0`, `readbackdata[512] = 1` left over on the stack. The as-written count is at least 1, so the probe is fatal on healthy hardware. | Compare the first `blocksize` bytes, as the shadow loop at disksize.c:231 does. | not executed | `Probe.CountMismatchesAsWritten`, `Probe.StaleTailCounts` | `Probe.CountMismatches` |

The device the probes run on gets its sector size from `Sectors.SectorSize` (`Sectors.Open`), which keeps it within the buffers. The model uses the corrected loop. `ProbeFacts.CleanProbePasses` proves the intended property of it: on healthy hardware every probe passes.
