# PenguinBurner: verified models of its hardest parts

PenguinBurner undervolts NVIDIA GPUs, fronts game prefixes with its own NVAPI DLL, installs desktop
shortcuts and publishes a package site. This project models the parts of it in which a small
mistake is expensive and proves what they promise. One module models one component:

| module | what it models |
|---|---|
| DistanceTransform | the exact distance transform behind the overlay font: a lower envelope of parabolas kept on a stack |
| CudaKernels | the GPU stress kernels, their threads interleaved in any order, against the CPU reference |
| ShimDeploy | parking and restoring `nvapi64.dll` in game prefixes, one file operation at a time, with a crash possible between any two |
| InotifyEvents | the decoder of the kernel's file events |
| GnomeShortcuts | the all-or-nothing installation of desktop shortcuts over a settings store whose calls may fail |
| VoltageSearch | which voltage comes next, and which points earlier failures keep closed |
| VoltageSweep | the voltage descent, for every way the probes may answer |
| AdaptiveTiers | the scan over three tiers: failure, discard, checkpoint, and the descent Performance takes over from Balanced |
| FinalVerification | the retreat to safer points when a final verification fails |
| OcLadder | the rungs of the Auto-OC climb |
| TargetSearch | the search for custom clock and voltage targets |
| Wrappers | optional values |
| Text | Python's blanks and trimming |
| CommandWords | the shell-word scanner over launch commands |
| WrapperTokens | the wrapper's own words, and stripping them |
| WrapperEdits | shell quoting, and retargeting the wrapper |
| WrapperWriting | the tokens that are written |
| WrapperStripping | what stripping leaves, and when a second strip changes something |
| WrapperLaws | what stripping, writing and reading back do to one another |
| GameKey | the percent-encoded identity flag, over UTF-8 |
| PagesArchive | packing, validating and extracting the package site |
| FanCurve | the validation of a fan curve |
| DaemonFraming | newline framing of the daemon's answers |
| OutputWrap | wrapping of command-line output |

State that the source changes in place is a class here (`NvapiHost`, `Gsettings`, `Search`, `Disk`), loops
are loops with invariants, and everything outside the process - probes, file events, settings calls, the
GPU scheduler - is an arbitrary function or schedule, so that the results hold for every run.

## Main results

- `DistanceTransform.Edt1D`, `DistanceTransform.SquaredEdt`, `DistanceTransform.SignedDistance`: the fast
  transform is the one-line minimum, exact in one and in two dimensions.
- `CudaKernels.ExactlyOnceIffStrideFits`, `CudaKernels.BruteForceMatchesReference`,
  `CudaKernels.CompareCountsDifferences`: the kernels are right for every interleaving and every launch;
  `CudaKernels.ReferenceIsUndone`: the rounds they compute have an inverse.
- `ShimDeploy.EveryRunIsSafe`, `ShimDeploy.CleanupLeavesNothing`: after any run with crashes every DLL is genuine,
  and the cleanup leaves nothing behind.
- `GnomeShortcuts.SetupGnomeShortcuts`, `GnomeShortcuts.SuccessServesEveryAction`: all or nothing, and what all is.
- `VoltageSweep.RunBaseUvLoop`, `AdaptiveTiers.RunAdaptiveTierScans`, `FinalVerification.RunWithFallbacks`,
  `TargetSearch.RunTargetSearch`, `OcLadder.BuildAutoOcLadder`: every scan ends, for a reason, on measured points;
  `AdaptiveTiers.FailedPointStaysClosed`: no tier goes where an earlier one failed.
- `CommandWords.ParseIsUnique`, `WrapperLaws.StrippingUndoesWriting`, `WrapperStripping.NoWrapperIsLeft`,
  `WrapperStripping.StrippingIsIdempotentIff`, `GameKey.KeyReadsBack`: reading, writing and stripping launch commands.
- `PagesArchive.RoundTrip`, `FanCurve.ValidateFanCurve`, `DaemonFraming.StreamLines`,
  `OutputWrap.WrappingIsIdempotent`: round trips, and finitely many checks that settle every case.

## Where the code does something else than it promises

Each of these is a property that is stated or suggested in the source and that does not hold for all
inputs. The model keeps the code, and the members named here give the exact condition.

- The shim's banner is looked for read by read, so it is found exactly when an occurrence lies inside one read
  (`ShimDeploy.FileContains`), and a banner across a read boundary is not seen
  (`ShimDeploy.BannerAcrossReadsIsMissed`).
- Restoring undoes deploying exactly when the prefix was not in the register and had no left-over sidecar
  (`ShimDeploy.RestoreUndoesDeploy`).
- Operations on one prefix that overlap can break it. A deploy that comes in between does so exactly when the
  operation under way is about to record or read a stock DLL it will park, to drop the sidecar, or to drop the
  register entry, as at the end of a restore or a sweep (`ShimDeploy.OverlappingDeployIsSafeIff`; in one case
  the shim itself is parked, `ShimDeploy.OverlappingDeploysParkTheShim`). A restore that comes in between and
  finds a sidecar does so exactly when a deploy is past recording the prefix, or a refresh past looking for the
  sidecar (`ShimDeploy.OverlappingRestoreIsSafeIff`).
- A DLL that Proton writes, and that is not parked already, is lost exactly when the operation under way has read
  another DLL to park or to put back, is about to install the shim, or is about to put the parked DLL back: in a
  deploy that parks, in one that refreshes a shim with a sidecar, and in a restore
  (`ShimDeploy.RewriteIsLostIff`, `ShimDeploy.RewriteWhileParkingIsLost`).
- A settings write that is reported but not kept leaves its entry behind exactly when it is not the write of
  the name (`GnomeShortcuts.DroppedWriteStrandsEntry`, `GnomeShortcuts.StrandAnEntry`), and a rollback gives the
  path list back exactly when the merge had not run or the list had no repetitions
  (`GnomeShortcuts.PathsComeBack`).
- The checkpoint of a tier is looked up outside the handling of tier failures: a condemned
  checkpoint ends the scan even when an earlier tier completed (`AdaptiveTiers.RunAdaptiveTierScans`,
  `AdaptiveTiers.CondemnedCheckpointEndsTheScan`).
- Stripping is not idempotent on every command, and can leave a token behind: its final trimming may cut a
  blank that belonged to the last word, and removing the words after an `env` may bring it in front of an opt-in
  that stays (`WrapperStripping.StrippingIsIdempotentIff`, `WrapperStripping.StrippingIsNotAlwaysIdempotent`,
  `WrapperStripping.TokenIsLeftIff`, `WrapperStripping.TokenLeftBehind`). A word for the wrapper itself is left
  only when a quote is open (`WrapperStripping.WrapperIsLeftIff`, `WrapperStripping.NoWrapperIsLeft`,
  `WrapperStripping.WrapperLeftInOpenQuote`).
  Tokens written between an `env` and an opt-in of the user's own are not undone by stripping
  (`WrapperLaws.StrippingUndoesWriting`).
- A site with a backslash in a name can be packed but not extracted (`PagesArchive.PackedIsAcceptable`).

## Model

| member | source | states |
|---|---|---|
| DistanceTransform.CrossingDecides | scripts/generate_overlay_font.py:121 | left of the crossing of two parabolas the earlier root is cheaper, right of it the later one |
| DistanceTransform.PopKeepsPlacing | scripts/generate_overlay_font.py:120-128 | a root whose region starts at or after the crossing with the new root wins nowhere and may go |
| DistanceTransform.PushCompletesEnvelope | scripts/generate_overlay_font.py:129-132 | pushing the new root at its crossing gives the lower envelope of one root more, with roots and boundaries strictly increasing |
| DistanceTransform.RegionGivesLowestCost | scripts/generate_overlay_font.py:133-138 | in its region a root of the envelope costs no more than any root |
| DistanceTransform.PopDominated | scripts/generate_overlay_font.py:120-128 | the inner loop pops dominated roots only, counts each pop, and never reaches below the bottom of the stack |
| DistanceTransform.BuildEnvelope | scripts/generate_overlay_font.py:113-132 | the two arrays hold the lower envelope of all roots, and the pops counted over all rounds and the remaining roots together are the number of roots, so the work is linear |
| DistanceTransform.Edt1D | scripts/generate_overlay_font.py:109-138 | every entry of the result is the minimum over all roots p of (q-p)^2 + f[p], and some root attains it |
| DistanceTransform.TransformAxis0 | scripts/generate_overlay_font.py:143-147 | each entry of the first pass is the least cost along its column |
| DistanceTransform.TransformAxis1 | scripts/generate_overlay_font.py:143-147 | each entry of the second pass is the least cost along its row |
| DistanceTransform.PassesSearchEveryPixel | scripts/generate_overlay_font.py:141-147 | two one-dimensional passes search all pixels of the mask |
| DistanceTransform.SquaredEdt | scripts/generate_overlay_font.py:141-147 | in a mask with a wanted pixel and (rows-1)^2 + (columns-1)^2 below 1e12 every entry is the squared distance (i-a)^2 + (j-b)^2 to some wanted pixel and at most that to each; in a mask with none it is 1e12; and for every mask it is the lesser of the two |
| DistanceTransform.NearestIsExact | scripts/generate_overlay_font.py:141-147 | the stand-in for infinity is out of reach: the nearest pixel decides in every mask of that size |
| DistanceTransform.SignedDistance | scripts/generate_overlay_font.py:150-154 | negative exactly on the mask, square at least one everywhere, and the square is, in the same numbers, the squared distance to the nearest pixel of the other kind |
| CudaKernels.CpuReference | stability/cuda_bruteforce.py:251-261 | unbounded integers masked after each operation compute the mixing function on 32-bit words |
| CudaKernels.KernelBody | stability/cuda_bruteforce.py:66-91 | the register loop of the kernel, with wrapping 32-bit instructions, computes the same function |
| CudaKernels.XorOfBits | stability/cuda_bruteforce.py:252-260 | bit k of an exclusive or is one exactly when bit k of the two numbers differs, for every k |
| CudaKernels.XorTakesBack | stability/cuda_bruteforce.py:252-260 | an exclusive or with the same number twice gives the first number back |
| CudaKernels.RoundIsUndone | stability/cuda_bruteforce.py:254-260 | a round of mixing is undone by its steps in reverse, with the inverses of the two odd factors modulo 2^32 |
| CudaKernels.ReferenceIsUndone | stability/cuda_bruteforce.py:251-261 | undoing all rounds gives the two seeds with the index mixed in, seed0 xor index and 17 index + seed1 modulo 2^32 |
| CudaKernels.IndicesStayApart | stability/cuda_bruteforce.py:251-261 | with the same seeds and rounds two indices never get the same pair |
| CudaKernels.StepKeepsConsistent | stability/cuda_bruteforce.py:57-96 | one step of any thread keeps: the log holds the visits of all threads, and repeats one only if two visits coincide |
| CudaKernels.EveryRunIsConsistent | stability/cuda_bruteforce.py:57-96 | every interleaving of the threads keeps that invariant |
| CudaKernels.ExactlyOnceIffStrideFits | stability/cuda_bruteforce.py:57-96 | the general fact behind the launches: a finished grid visits each index below n exactly once, and nothing else, if and only if n is zero or n plus the number of threads is at most 2^32 |
| CudaKernels.EveryBusyScheduleEnds | stability/cuda_bruteforce.py:57-96 | any schedule that names unfinished threads is over after n + threads steps, and until then some thread can move |
| CudaKernels.LaunchesFit | stability/cuda_bruteforce.py:145-184 | every launch of the program has 1 to 256 blocks of 256 threads and at most 4194304 elements, so that no index register wraps |
| CudaKernels.StageInNumbers | stability/cuda_bruteforce.py:161-184 | a stage of the ramp takes its share of 256 blocks, to the nearest and at least one, and its share of 4194304 elements, rounded down and at least 4096 |
| CudaKernels.BlockIndexIsFlat | stability/cuda_bruteforce.py:57-62 | block times block size plus thread numbers the threads of a grid from zero on, without a gap |
| CudaKernels.BruteForceMatchesReference | stability/cuda_bruteforce.py:57-96 | for every launch of the program and whatever the interleaving: once all threads are done, each element below n holds the CPU reference value and every other address is untouched |
| CudaKernels.RunBruteForce | stability/cuda_bruteforce.py:57-96 | the threads of a grid, each taking its registers through the rounds and storing them at its index when the scheduler moves it, leave the stores of the visits in their order |
| CudaKernels.LaunchBruteForce | stability/cuda_bruteforce.py:480-501 | a launch of the program in which every thread gets to its end leaves the reference values |
| CudaKernels.CompareCountsDifferences | stability/cuda_bruteforce.py:118-138 | for every compare launch of the program the atomic counter ends as the number of differing positions, so it is zero exactly when the copies are equal |
| CudaKernels.CountMismatches | stability/cuda_bruteforce.py:504-538 | reports exactly the redundant pairs whose copies differ, in order, each under its name with the number of positions in which they differ |
| ShimDeploy.FileContains | overlay/shim_deploy.py:264-272 | finds a needle exactly when an occurrence lies inside one read |
| ShimDeploy.ShimHasBanner | overlay/shim_deploy.py:264-272 | a file is taken for the shim exactly when the text "[pb-nvapi-shim]" stands inside one block of 1048576 bytes |
| ShimDeploy.BannerAcrossReadsIsMissed | overlay/shim_deploy.py:264-272 | a banner that starts in the last byte of a read is in the file and is not found |
| ShimDeploy.StepKeepsSafe | overlay/shim_deploy.py:316-397 | one file operation, a crash, or Proton writing or removing the DLL keeps: an active shim has a sidecar, no sidecar is the shim, every prefix with a shim or sidecar is in the register; and the DLLs in place, parked or held by a process are those there were before and the one Proton writes |
| ShimDeploy.ActKeepsOthers | overlay/shim_deploy.py:316-422 | whatever happens on one prefix, files, register entry and process of every other one are as they were |
| ShimDeploy.EveryRunIsSafe | overlay/shim_deploy.py:160-196 | that holds after every run of operations with a crash between any two: every DLL in place or parked is one the prefix had at the start or one Proton wrote to it in the run |
| ShimDeploy.DeployedIsARun | overlay/shim_deploy.py:346-397 | an uninterrupted deploy is one such run, also when the DLL still changes or the register fails, and its whole effect on files and register is the specification `Deployed` |
| ShimDeploy.DeployedKeepsSafe | overlay/shim_deploy.py:346-397 | it keeps every prefix safe, whether or not the DLL is settled and the register works |
| ShimDeploy.RestoredIsARun | overlay/shim_deploy.py:410-419 | an uninterrupted restore is one such run, and its whole effect is `Restored` |
| ShimDeploy.SweptIsARun | overlay/shim_deploy.py:452-454 | so is dropping the entry of a prefix that has no sidecar |
| ShimDeploy.DeployIsIdempotent | overlay/shim_deploy.py:322-397 | deploying twice is deploying once |
| ShimDeploy.RestoreUndoesDeploy | overlay/shim_deploy.py:400-422 | on a stock prefix restore after deploy is the identity if and only if the prefix was not in the register and had no sidecar; the DLL comes back in any case |
| ShimDeploy.RefrontAfterRewrite | overlay/shim_deploy.py:673-738 | after Proton rewrites the DLL, deploying again parks exactly that DLL and fronts the prefix |
| ShimDeploy.OperationComesTo | overlay/shim_deploy.py:346-419 | left alone, an operation that is under way at any of its points ends within five steps, with the outcome `Outcome` says |
| ShimDeploy.OverlappingDeployIsSafeIff | overlay/shim_deploy.py:322-397 | when a whole deploy of a stock DLL comes in between, the prefix is safe at the end if and only if the operation under way was not about to park what is in place, nor to drop the sidecar or the register entry |
| ShimDeploy.OverlappingRestoreIsSafeIff | overlay/shim_deploy.py:400-422 | when a whole restore comes in between, the prefix is safe at the end if and only if there was nothing to restore or the operation under way was neither about to install the shim nor had recorded the prefix for it |
| ShimDeploy.RewriteIsLostIff | overlay/shim_deploy.py:346-419 | a DLL that Proton writes, and that is not parked already, is gone at the end of the operation under way if and only if that operation has read another one, or is about to install the shim or the parked DLL |
| ShimDeploy.OverlappingDeploysParkTheShim | overlay/shim_deploy.py:322-397 | a deploy about to read the stock DLL parks the shim if another deploy finishes first |
| ShimDeploy.RewriteWhileParkingIsLost | overlay/shim_deploy.py:391-392 | a DLL that Proton writes between the reading of the old one and the installing of the shim is overwritten, and the old one is what is parked |
| ShimDeploy.NvapiHost.Deploy | overlay/shim_deploy.py:322-397 | the new state is `Deployed` of the old one; it reports a fronted prefix exactly when the DLL is there, the register works, and it is the shim with a sidecar or a settled stock DLL; then the DLL is the built shim, the prefix is recorded, and the sidecar is the stock DLL that was in place, or stays; otherwise no DLL and no sidecar changes; every safe prefix stays safe |
| ShimDeploy.NvapiHost.Restore | overlay/shim_deploy.py:400-422 | the new state is `Restored` of the old one; it reports cleaning exactly when there was a sidecar; then the sidecar and the entry are gone and the parked DLL is back where the shim, or nothing, was in place; otherwise nothing changes; every safe prefix stays safe |
| ShimDeploy.NvapiHost.RestoreAll | overlay/shim_deploy.py:425-459 | the register is empty afterwards, every registered or scanned prefix is cleaned and every other one untouched, and exactly those with a sidecar are reported |
| ShimDeploy.CleanupLeavesNothing | overlay/shim_deploy.py:425-459 | after any run, a cleanup leaves no prefix fronted and no sidecar; each DLL is the one in place or else the last one parked, and one the prefix started with or Proton wrote to it |
| InotifyEvents.ParseEvents | overlay/shim_deploy.py:481-502 | the events of a buffer, read record by record with bounds |
| InotifyEvents.EveryRecordIsDecoded | overlay/shim_deploy.py:481-502 | a buffer that holds records laid out byte by byte as the kernel does is decoded to exactly these records, in order, names without their padding |
| InotifyEvents.WrittenIsReadBack | overlay/shim_deploy.py:481-502 | a round trip: the bytes written for any records, followed by at most a cut-off header, are read as these records |
| InotifyEvents.Drain | overlay/shim_deploy.py:524-535 | reports a change exactly when one of the records has the overflow bit or the ignored bit or names "nvapi64.dll" |
| GnomeShortcuts.ShippedActionsAreApart | overlay/gnome_shortcuts.py:214-233 | the shipped actions never compete for one settings path |
| GnomeShortcuts.CandidatePathIs | overlay/gnome_shortcuts.py:223-226 | the candidate paths of a flag are named after it and numbered in decimal from the second one on, and the number is read back |
| GnomeShortcuts.MakePlan | overlay/gnome_shortcuts.py:214-243 | each action is preserved because an active entry or its first open candidate path runs it, or planned at that path with its own command and its default accelerator unless that is in use, and then named as a conflict; when every call works there is a plan exactly if each action is there or has room |
| GnomeShortcuts.PlannedEntriesAre | overlay/gnome_shortcuts.py:234-240 | each planned entry has the label and the command of its action, and its default accelerator unless that is in use or given to an entry before; the action is then named as a conflict |
| GnomeShortcuts.ConflictsGoUnbound | overlay/gnome_shortcuts.py:234-237 | an action named as a conflict is planned without an accelerator |
| GnomeShortcuts.PlanIsPlaced | overlay/gnome_shortcuts.py:214-243 | planned paths are free, inactive and distinct, each made for its own action |
| GnomeShortcuts.PlanAvoidsInUse | overlay/gnome_shortcuts.py:214-243 | no planned accelerator is occupied or used twice, in normal form |
| GnomeShortcuts.PlanAccounts | overlay/gnome_shortcuts.py:214-243 | each action is preserved or planned exactly once |
| GnomeShortcuts.Install | overlay/gnome_shortcuts.py:244-265 | when nothing fails it installs; and then the planned entries are there, every other entry is unchanged, and the path list is the old one followed by the new paths |
| GnomeShortcuts.Rollback | overlay/gnome_shortcuts.py:164-197 | it says clean only when everything it wrote is gone again and the added paths are off the list; when no call fails it empties exactly the entries that still hold what was written, and takes their added paths off the list |
| GnomeShortcuts.EmptiedIsBefore | overlay/gnome_shortcuts.py:164-197 | emptying entries that are all as written gives the entries there were before |
| GnomeShortcuts.PathsComeBack | overlay/gnome_shortcuts.py:178-190 | removing the added paths gives the old list back if and only if the merge had not changed the list or the list had no repetitions |
| GnomeShortcuts.DroppedWriteStrandsEntry | overlay/gnome_shortcuts.py:164-197 | a write reported but dropped is never called clean, and the entries are as before if and only if it was the write of a name, the first key of an entry |
| GnomeShortcuts.StrandAnEntry | overlay/gnome_shortcuts.py:164-197 | a run of the operations in which a dropped command leaves an entry with nothing but its name |
| GnomeShortcuts.EveryActionIsRun | overlay/gnome_shortcuts.py:214-265 | after a successful setup every action is run by some entry, a new one by an active entry |
| GnomeShortcuts.SetupGnomeShortcuts | overlay/gnome_shortcuts.py:200-275 | all or nothing: on success the store carries exactly the plan it called for; on a clean failure it is as it was; with a working rollback every failure is clean; and when every call works it succeeds exactly if each action is there or has room |
| GnomeShortcuts.SuccessServesEveryAction | overlay/gnome_shortcuts.py:214-275 | success means: unused paths, accelerators nobody had, each action preserved or added once, and each action run by some entry |
| VoltageSearch.SelectAggressive | auto_uv/run/lower_voltage_search.py:66-96 | each step goes to the third bin from where it starts, or the last, in the upper tenth of the range, and to the next bin below it; the last bin is always kept |
| VoltageSearch.FilterEffective | auto_uv/run/lower_voltage_search.py:99-133 | keeps the first voltage, the last one, and between them exactly each that is 15 mV below the one kept before it or 20 mV from the measured one, 5 mV each below nine tenths of the stable voltage |
| VoltageSearch.SelectNextLowerVoltage | auto_uv/run/lower_voltage_search.py:26-63 | a step to an allowed editable bin strictly below the stable voltage whenever there is one: the third one down, or the last, when the nearest is in the upper tenth of the range, and else the nearest |
| VoltageSearch.EntryCloses | auto_uv/persistence/unsafe_voltage_cache.py:78-102 | an entry closes a point if and only if it holds for the tier and the point is no higher in voltage and no lower in clock than one it records: its own clock, one of its band, or any clock when it has none |
| VoltageSearch.BlockedIsMonotone | auto_uv/persistence/unsafe_voltage_cache.py:78-134 | a closed point stays closed when failures are added, at every lower voltage and every higher clock |
| VoltageSearch.UnsafeMinSearch | auto_uv/persistence/unsafe_voltage_cache.py:51-75 | the highest voltage closed at every clock, and the lowest bin above it |
| VoltageSearch.ClosesVoltageIff | auto_uv/persistence/unsafe_voltage_cache.py:59-71 | the entries it looks at are those without a band that close a voltage below the start at every clock |
| VoltageSweep.DecidePassedProbe | auto_uv/base_uv_loop.py:344-422 | either the new candidate is selected, or it was judged not improved and the selection stays; it stops exactly at a pass without a gain, after an earlier one, beyond the configured streak and far enough down; a candidate without a gain is selected exactly at such a stop, when it measured no worse at no more power |
| VoltageSweep.AcceptPassingProbe | auto_uv/base_uv_loop.py:243-311 | after a passed probe the sweep is on track: the selection is what judging the passes one by one comes to, and the next voltage is one step further down or the Balanced wall was reached |
| VoltageSweep.SelectionIsBest | auto_uv/base_uv_loop.py:344-422 | judging the passes one by one selects the initial candidate or a pass, and every later pass was judged not improved against it |
| VoltageSweep.WallIffNoGain | auto_uv/scan_mode/efficiency_fps_per_w_policy.py:179-210 | the wall is reached if and only if the voltage has come down far enough and the last passes, one more than the configured streak and at least two, were all judged not improved against what was selected before them |
| VoltageSweep.DropIsPercentage | auto_uv/base_uv_loop.py:465-470 | far enough down means that 100 times the drop is at least the percentage times the start voltage |
| VoltageSweep.Finish | auto_uv/base_uv_loop.py:196-240 | floor caution is met if and only if the bins above a minimum ran out after at least two probes and the deepest pass was selected; then exactly that pass is excluded for the one before; candidate and state at the end belong together |
| VoltageSweep.FloorCautionOutsideBalanced | auto_uv/base_uv_loop.py:196-240 | outside Balanced the deepest pass is always selected, so floor caution is met exactly when the bins above a minimum ran out after at least two probes |
| VoltageSweep.VoltagesDecrease | auto_uv/base_uv_loop.py:134-193 | the probed voltages strictly decrease, all below the initial one |
| VoltageSweep.RunBaseUvLoop | auto_uv/base_uv_loop.py:91-240 | for every prober the descent ends; each probe is one step down to an open editable bin at the initial clock, within floor and minimum, and never at or below a voltage at or above a clock that a failure on record names; it ends only because no bin is left above the minimum, the next point is closed, the last probe failed or the Balanced wall was reached; the minimum is the higher of the configured one and the one the recorded failures leave; the result is well chosen, and exactly a failed last probe is marked unsafe |
| AdaptiveTiers.DonationFromScan | auto_uv/main_loop.py:1355-1380 | a completed Balanced tier donates its last probe exactly if that is the verified point with its plan |
| AdaptiveTiers.DonationFromCheckpoint | auto_uv/main_loop.py:1643-1688 | a donation is rebuilt exactly when some probe of the checkpoint is the verified point, and carries the plan and clock of the last such probe |
| AdaptiveTiers.CanReuseIffMatches | auto_uv/main_loop.py:1810-1902 | a donation may be adopted if and only if tail, memory offset and power limit are the same, the baseline, where it is known, is within 10 mV and 15 MHz, and a clock was measured |
| AdaptiveTiers.RunDescent | auto_uv/main_loop.py:1403-1515 | a resumed descent hands on the recovered candidate without a probe; any other one is a whole voltage descent over the failures known, cut off only by a probe that never answers, and marks exactly a genuine failure of the last probe |
| AdaptiveTiers.TierDescendsFromBaseline | auto_uv/main_loop.py:1403-1455 | the steps of a tier are counted from its baseline, and the wall is reached only where the voltage has come down far enough from it |
| AdaptiveTiers.MarkCloses | auto_uv/main_loop.py:1474-1480 | the mark of a failed candidate closes, for every tier, exactly its voltage and lower ones at its clock and higher ones |
| AdaptiveTiers.DescentIsSafe | auto_uv/main_loop.py:1403-1515 | every probe is at an open bin from the tier's minimum up to below the baseline, at the clock of the baseline; the candidate handed on is the baseline, the recovered one or a passed probe; only failed probes are marked |
| AdaptiveTiers.RunTier | auto_uv/main_loop.py:1122-1354 | the tier's fate tells the stage that failed or the verdict on what was finished: the adopted point under its tested plan, or what the descent handed on; Performance adopts the donation exactly when tail, power limit, memory offset and baseline match |
| AdaptiveTiers.TierStep | auto_uv/main_loop.py:1117-1390 | one trip round the tier loop keeps: each report tells what happened and knows the failures before it, adoption exactly of the donation in hand, no tier after one that cannot continue |
| AdaptiveTiers.NextDonation | auto_uv/main_loop.py:1061-1380 | a failed Balanced tier withdraws the donation, a completed one offers its verified point when it has a tested plan, all else leaves it alone |
| AdaptiveTiers.PerformanceMeetsBalanced | auto_uv/main_loop.py:1191-1215 | over a whole run Performance meets the donation that Balanced left, and adopts it exactly when it may |
| AdaptiveTiers.RunAdaptiveTierScans | auto_uv/main_loop.py:1004-1400 | unless it comes to a tier with a condemned checkpoint before a report stops it, it returns exactly when some tier completed, with the earliest completed tier; it raises only an error some tier reported; never ends in "no verified profile" |
| AdaptiveTiers.CondemnedCheckpointEndsTheScan | auto_uv/persistence/scan_checkpoint.py:345-360 | with Efficiency completed in the checkpoint and Balanced condemned there, the scan ends without a result |
| AdaptiveTiers.EveryStartEndsOnce | auto_uv/main_loop.py:1075-1388 | in the events of a run each tier that was tried afresh is started once and then completed or skipped once |
| AdaptiveTiers.NoTierProbesCondemnedPoints | auto_uv/main_loop.py:1465-1480 | across all tiers of one run no descent probes a point closed by a failure given at the start or recorded by an earlier tier |
| AdaptiveTiers.FailedPointStaysClosed | auto_uv/main_loop.py:1465-1480 | over a whole run: after a probe failed for its voltage, every probe of a later tier is at a higher voltage or a lower clock |
| FinalVerification.SaferIsAStrictOrder | auto_uv/main_loop.py:2333-2337 | "lower clock, or the same clock at a higher voltage" is a strict order |
| FinalVerification.Choose | auto_uv/main_loop.py:2355-2362 | the choice among safer points is the first with a maximal key: for Efficiency among those with a positive measure, if any |
| FinalVerification.ClockKeyOrders | auto_uv/auto_oc/scoring.py:24-41 | of two measured points the higher clock is preferred, on ties the higher 90th percentile, the lower voltage, the lower power, the lower temperature |
| FinalVerification.UnknownLoses | auto_uv/auto_oc/scoring.py:44-49 | a measure that is missing loses against one that is there |
| FinalVerification.EfficiencyKeyOrders | auto_uv/scan_mode/efficiency_fps_per_w_policy.py:25-43 | of two scored points more frames per watt are preferred, on ties the higher clock, then the lower power |
| FinalVerification.FailedSetIsImplied | auto_uv/main_loop.py:2331-2337 | looking a candidate up in the set of failed points never decides anything |
| FinalVerification.ChooseNext | auto_uv/main_loop.py:2318-2378 | there is a next attempt exactly when a measured, open, safer point within the custom limits exists, and it is the choice among all of these, under its own plan |
| FinalVerification.RetreatShrinks | auto_uv/main_loop.py:2256-2291 | each retreat strictly shrinks the set of points still safer |
| FinalVerification.TrailIsStrict | auto_uv/main_loop.py:2256-2291 | any later attempt is strictly safer than any earlier one, so no point is verified twice |
| FinalVerification.RunWithFallbacks | auto_uv/main_loop.py:2245-2291 | the loop ends for all outcomes; every retry follows a rejected attempt and is the choice among the points it may retreat to; and the end says why it stopped |
| OcLadder.BoundedClockIsMonotone | auto_uv/auto_oc/ladder.py:140-153 | a larger request never gets a smaller clock, and clocks stay between start and end |
| OcLadder.BoundedClockInNumbers | auto_uv/auto_oc/ladder.py:140-153 | the end for a request from there on, none for one that is not positive, and else the nearest multiple of the step, halves to the even one, kept between start and end |
| OcLadder.FixedVoltageLadder | auto_uv/auto_oc/ladder.py:42-73 | at a fixed voltage each new clock is a rung once, clocks strictly increase; refused exactly when some clock is |
| OcLadder.RisingLadder | auto_uv/auto_oc/ladder.py:75-122 | each new voltage is a rung once, voltages strictly increase, clocks never fall, and the last rung has the full clock |
| OcLadder.BuildAutoOcLadder | auto_uv/auto_oc/ladder.py:21-122 | at most max_steps rungs numbered from one, all within start and end; every rung is one of the interpolated points and none is missing; there is a rung exactly when the climb has somewhere to go, and then the ladder ends at the endpoint clock and the highest bin allowed |
| TargetSearch.DownClocksFall | auto_uv/auto_oc/target_search.py:132-143 | the clocks on the way down never rise, stay between limit and start, and end exactly at the limit |
| TargetSearch.DownStepsInNumbers | auto_uv/auto_oc/target_search.py:135 | as many clocks as it takes in steps of 15 MHz, one at least and ten at most |
| TargetSearch.DownClockInNumbers | auto_uv/auto_oc/target_search.py:136-144 | each clock before the last is the even split of the way, rounded down to a multiple of 15, or the limit |
| TargetSearch.DownPathFalls | auto_uv/auto_oc/target_search.py:132-147 | the path stays at the proven voltage, has as many points as the way has started steps of 15 MHz, but at most ten, never rises and ends at the limit |
| TargetSearch.TriedUnlessClosed | auto_uv/auto_oc/target_search.py:77-90 | every point on the way was closed by the failures on file at its reading, or was probed |
| TargetSearch.PassesAreMeasured | auto_uv/auto_oc/target_search.py:115-129 | the passed candidates are exactly the probes that passed with a measured clock |
| TargetSearch.Search.Probe | auto_uv/auto_oc/target_search.py:77-129 | a closed point is not probed; any other one is, and it is accepted and selected exactly when it passed with a measured clock |
| TargetSearch.Search.ClockDown | auto_uv/auto_oc/target_search.py:132-147 | the way down goes through its whole path of clocks at the proven voltage, each one closed at its reading or probed, and ends early only at a probe that ends the search |
| TargetSearch.ChooseEligible | auto_uv/auto_oc/target_search.py:199-211 | for Efficiency the entry of the best efficiency, for the others the selected one when its candidate is among the eligible, and otherwise the last eligible entry |
| TargetSearch.GatheredAreAccounted | auto_uv/auto_oc/target_search.py:158-198 | every gathered candidate is the start, a measured pass of this search, or one the climb measured or selected |
| TargetSearch.ClimbAdds | auto_uv/auto_oc/target_search.py:158 | the climb adds candidates exactly when the clock limit is above the clock that was reached and its voltage within the voltage limit |
| TargetSearch.ResultIsEligible | auto_uv/auto_oc/target_search.py:186-211 | there is no result exactly when nothing gathered is eligible; a result has the candidate of an eligible entry; and it carries the measurements of one if and only if the tier is Efficiency, or the selected candidate is not among the eligible, or was selected with measurements |
| TargetSearch.ResultIsMeasured | auto_uv/auto_oc/target_search.py:178-211 | when the climb gives the candidate it selected with its own measurements, every result is an eligible entry with its measurements |
| TargetSearch.RunTargetSearch | auto_uv/auto_oc/target_search.py:38-211 | the way down is gone to its end unless a probe ends the search; what is gathered is the start, every measured pass and what the climb adds; the result is the choice among the eligible ones, so its candidate was measured, is within both limits and open at the end; and there is none exactly when no gathered one is eligible |
| CommandWords.ParseIsRight | overlay/wrapper_tokens.py:88-123 | reading a command as words and blanks loses nothing, for every text |
| CommandWords.ParseIsUnique | overlay/wrapper_tokens.py:88-123 | words with blanks between them are found again: there is one way to read a command |
| CommandWords.CommandWords | overlay/wrapper_tokens.py:88-123 | the scanner's index loops find exactly these words, with their spans and decoded forms |
| CommandWords.WordsCoverTheText | overlay/wrapper_tokens.py:88-123 | for every text the spans are in order and apart, all that is not blank lies in one, and each word is what its span decodes to |
| WrapperTokens.TokenIs | overlay/wrapper_tokens.py:60-65 | a word is a token if and only if it is the name `--pb-`, `PB_` or `PENGUIN_BURNER` with what the pattern asks for: a name of its letters, an equals sign, and a value without a blank, or the wrapper's name alone or with a value |
| WrapperTokens.NameOfPath | overlay/wrapper_tokens.py:137-141 | the name of a path is its last part, parts that are empty or a dot left out |
| WrapperTokens.StripTokens | overlay/wrapper_tokens.py:68-85 | the cursor loop gives the kept words, each with the blanks after it, trimmed at both ends |
| WrapperTokens.StrippedIsRead | overlay/wrapper_tokens.py:68-85 | a stripped command is read as the kept words, in order and as written; only the end of the last one may be cut |
| WrapperEdits.QuotedReadsBack | overlay/wrapper_tokens.py:126-131 | a quoted text is one closed shell word and decodes to that text |
| WrapperEdits.BareIs | overlay/wrapper_tokens.py:130 | a text is left unquoted if and only if it is not empty and all its characters are among the listed ones |
| WrapperEdits.PartsOfAWord | overlay/wrapper_tokens.py:116-121 | single quotes keep everything, double quotes all but a quote or a backslash; a backslash keeps the next character, and inside double quotes it stays unless a quote or a backslash follows |
| WrapperEdits.ReadTogether | overlay/wrapper_tokens.py:116-121 | what is written one after the other is read one after the other |
| WrapperEdits.ReplaceExecutable | overlay/wrapper_tokens.py:126-131 | replacing from the last word to the first gives the retargeted command |
| WrapperEdits.OnlyWrapperWordsChange | overlay/wrapper_tokens.py:126-131 | retargeting turns each wrapper word into one word that decodes to the new executable, and leaves all other words and all blanks as written |
| WrapperWriting.TokensGo | overlay/wrapper_tokens.py:207-228 | every token that is written is recognised by stripping, for all settings and game keys |
| WrapperWriting.WordsWritten | overlay/wrapper_tokens.py:207-228 | the written words, in their text and order, for all settings |
| WrapperLaws.StrippingUndoesWriting | overlay/wrapper_tokens.py:68-85 | stripping a command with tokens written between p and q gives what it gives without them if and only if they do not part an `env` from an opt-in |
| WrapperLaws.StrippingUndoesAppending | overlay/wrapper_tokens.py:68-85 | for every p with closed quoting, strip(p + " " + tokens) is strip(p) |
| WrapperStripping.NothingOfOursIsLeft | overlay/wrapper_tokens.py:68-85 | a wrapper word or token is left if and only if the last word of the command that stays is one once the blanks at its end are trimmed |
| WrapperStripping.WrapperIsLeftIff | overlay/wrapper_tokens.py:68-85 | a word for the wrapper itself is left if and only if the last word that stays is one once trimmed |
| WrapperStripping.NoWrapperIsLeft | overlay/wrapper_tokens.py:68-85 | for every command with closed quoting no word for the wrapper itself is left |
| WrapperStripping.TokenIsLeftIff | overlay/wrapper_tokens.py:68-85 | for every command with closed quoting a token is left if and only if the last word that stays is a token but for an escaped blank at its end |
| WrapperStripping.WrapperLeftInOpenQuote | overlay/wrapper_tokens.py:68-85 | an open quote with a blank at the end can leave a path to the wrapper behind |
| WrapperStripping.CleanEndLeavesNothing | overlay/wrapper_tokens.py:68-85 | nothing is left when the last word that stays does not end in a blank |
| WrapperStripping.TokenLeftBehind | overlay/wrapper_tokens.py:68-85 | an assignment of ours with an escaped blank at its end is left behind as one of ours |
| WrapperStripping.StrippingIsIdempotentIff | overlay/wrapper_tokens.py:68-85 | stripping twice is stripping once unless the command has an `env` that stays with only going words between it and a staying word that reads as the opt-in, or a last staying word that is one of ours once trimmed; an if and only if over the words of the command |
| WrapperStripping.StrippingIsNotAlwaysIdempotent | overlay/wrapper_tokens.py:68-85 | `env env 'PB_INGAME_LATENCY=a b'` changes on the second strip |
| WrapperLaws.SwitchesReadBack | overlay/wrapper_tokens.py:134-153 | in a command with tokens, the wrapper is present, and the overlay and latency switches read back as written, besides what the user's own words say |
| WrapperLaws.RetargetedPresence | overlay/wrapper_tokens.py:126-141 | after retargeting the wrapper is present if and only if it was and the new executable is a wrapper |
| GameKey.FlagIsOneWord | overlay/wrapper_tokens.py:184-192 | the flag of every key is free of blanks, quotes and backslashes |
| GameKey.DecodeEncoded | overlay/wrapper_tokens.py:195-204 | decoding UTF-8 with replacement gives every encoded text back |
| GameKey.EncodeDecodedChar | overlay/wrapper_tokens.py:195-204 | what is decoded as one character is its encoding, so no long form, no surrogate and nothing above the last code point is |
| GameKey.StartedIsLongest | overlay/wrapper_tokens.py:195-204 | what is replaced together is the longest start of a character's encoding there is |
| GameKey.UnquoteOfQuoted | overlay/wrapper_tokens.py:184-204 | percent-decoding undoes percent-encoding, for every text |
| GameKey.UnquoteKeepsPlain | overlay/wrapper_tokens.py:195-199 | percent-decoding leaves every text without a percent sign as it is |
| GameKey.QuoteByteIs | overlay/wrapper_tokens.py:184-192 | letters, digits and `_.-~:` stay, every other byte becomes a percent sign and two digits in upper case |
| GameKey.KeyReadsBack | overlay/wrapper_tokens.py:184-204 | reading a flag back gives the trimmed key, for every key |
| GameKey.FlagsAreDistinct | overlay/wrapper_tokens.py:184-204 | two keys share a flag exactly when they are the same once trimmed |
| GameKey.LegacyFlagReads | overlay/wrapper_tokens.py:195-204 | the older Lutris flag reads as a key of that launcher, and a word with neither prefix as no key |
| PagesArchive.NameReadsBack | scripts/flatpak_pages_artifact.py:256-266 | the path of an entry is found again in its name unless the name has a backslash, or a part that is empty, "." or "..": then it is refused |
| PagesArchive.ValidatedMembers | scripts/flatpak_pages_artifact.py:269-301 | accepts exactly the archives within the limits whose members are safe, of a supported type, distinct, and never below a file |
| PagesArchive.Disk.MakeFolders | scripts/flatpak_pages_artifact.py:311-315 | creates exactly the missing folders of a path, and fails exactly when one of them is a file |
| PagesArchive.Disk.ExtractMembers | scripts/flatpak_pages_artifact.py:304-323 | a validated archive extracts without collision, in any order of its members, to exactly its files, its folders and the folders these lie in; it fails exactly when a size is wrong |
| PagesArchive.PackedIsAcceptable | scripts/flatpak_pages_artifact.py:225-244 | a packed site is accepted again if and only if no name has a backslash and it is within the limits |
| PagesArchive.ExtractingPackedGivesBack | scripts/flatpak_pages_artifact.py:225-323 | extracting a packed site gives back the same tree |
| PagesArchive.RoundTrip | scripts/flatpak_pages_artifact.py:225-323 | packing, validating and extracting together: refused exactly under those conditions, and otherwise the tree comes back |
| FanCurve.SpeedRises | runtime/runtime_spec.py:481-488 | the interpolated fan speed never falls as the temperature rises |
| FanCurve.SpeedIsInterpolated | runtime/runtime_spec.py:481-488 | the speed at a point of the curve is that point's, between two neighbours it lies on the straight line through them, and outside the curve it is that of the end point |
| FanCurve.ChecksMakeSafe | runtime/runtime_spec.py:466-478 | looking at five temperatures settles all of them |
| FanCurve.ValidateFanCurve | runtime/runtime_spec.py:447-478 | a curve is accepted if and only if it has two to ten rising points in range and is safe at every temperature: within 0 to 100, at most 0.01 up to 45 degrees, and at least 29.99 from 60, 74.99 from 85 and 99.99 from 90 degrees on |
| DaemonFraming.LinesAreRight | runtime/daemon_client.py:122-133 | the lines of a stream have no newline and joined by newlines give the stream |
| DaemonFraming.CutLines | runtime/daemon_client.py:129-133 | the inner loop yields every complete line at once and keeps only the unterminated rest |
| DaemonFraming.StreamLines | runtime/daemon_client.py:121-133 | for every split into chunks, the lines of the whole stream that have another byte than blanks, in order, the unterminated last one included |
| DaemonFraming.PayloadLine | runtime/daemon_client.py:74-89 | reads no chunk after the first with a newline, and answers the first line of the whole stream, or an error when it is empty |
| OutputWrap.WrapOutputLine | common/cli_output.py:104-123 | the loop ends and gives the pieces of the line |
| OutputWrap.BreaksAtLastBlank | common/cli_output.py:112-121 | a line is cut at the last blank that fits and is not in the first half, or at the full width when there is none; blanks around the cut are left out, and where nothing would be left the full width is taken |
| OutputWrap.WrapKeepsText | common/cli_output.py:104-123 | a wrapped line keeps every character that is not blank, in order, in pieces at most the width long |
| OutputWrap.WrapText | common/cli_output.py:65-101 | the text is wrapped line by line, with documents and lines that are JSON kept |
| OutputWrap.WrappingFitsAndKeeps | common/cli_output.py:65-101 | a JSON document, or any text when the width is not positive, is left alone; otherwise every line fits or is a kept JSON line, lines that were so are still there, and every character that is not blank is kept in order |
| OutputWrap.WrappingIsIdempotent | common/cli_output.py:65-101 | wrapping wrapped text again changes nothing, whatever counts as JSON |

## Left out

- Floating-point rounding: clocks, ratios, temperatures and distances are real numbers; Python's half-to-even `round` is an integer function. A fan point that is not finite has no counterpart.
- Locks, `fsync`, temporary files, sockets, processes and file-event system calls: only the state each step leaves is modelled, a lock excludes others, and a settled file is a complete one.
- Deploy and restore of one prefix are taken not to overlap, and a register entry to resolve to the prefix it names; `overlay/shim_deploy.py` relies on both.
- Parsing of settings values and accelerators and the recognition of the shortcut commands (`overlay/gnome_shortcuts.py:51-156`) are parameters of the GNOME model; nobody else edits the settings meanwhile, and a failing call changes nothing.
- In the CUDA model the two stores of one visit are one step; the timing of the ramp, the watchdog and the driver are not modelled.
- CudaKernels.KernelBody: the kernel's text is transcribed instruction by instruction; the assembler syntax itself is not parsed.
- Temperature-normalised comparison, the close-to-edge margin, curve flattening, the Auto-OC candidate search, checkpoint files and probe runners are parameters; flattening is taken to keep the requested voltage and clock.
- Power and memory limits of a tier are inputs of `AdaptiveTiers`; how they are clamped and applied is not modelled, and neither are log lines, the text of events and the `tier_confirmed` event.
- OcLadder.BuildAutoOcLadder: the editable bins are those of a validated curve, positive and strictly increasing, so the source's sorting has nothing to do.
- TargetSearch.RunTargetSearch: the climb in the middle is an arbitrary answer, and the endpoint is given; that the climb gives the candidate it selected with its own measurements is a hypothesis of `TargetSearch.ResultIsMeasured`.
- PagesArchive.Disk.ExtractMembers: the order of the members is arbitrary, of which the source's sorted order is one case; permissions, checksums, signing keys, symbolic links and the required site files are not modelled.
- OutputWrap.WrapText: the newline is the only line separator; carriage returns and the other separators of `str.splitlines` are not modelled, and whether a text is JSON is any predicate.
- DaemonFraming.StreamLines: what a line decodes to is not modelled.
- GameKey.DecodeEncoded: text is a sequence of Unicode scalar values; a Python string with a lone surrogate has no counterpart.
- The setup of a scan, crash recovery, dialogs and final-choice prompts of `auto_uv/main_loop.py`: wiring and user interaction.
- Overlay configuration, metric formatting, shortcut tables, Qt windows, packaging and update polling: correct but easy members.
