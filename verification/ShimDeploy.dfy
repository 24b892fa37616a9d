/** Fronting a Proton prefix's nvapi64.dll with the latency shim (overlay/shim_deploy.py):
    the deploy and restore protocols, one file operation at a time, with Proton rewriting the
    same file and a crash possible between any two operations. */
module ShimDeploy {

  type Content = seq<nat>

  /** A prefix, named by its resolved system32 directory. */
  type Path = string

  // ---------------------------------------------------------------------------
  // Recognising the shim
  // ---------------------------------------------------------------------------

  /** The banner compiled into the shim: "[pb-nvapi-shim]". */
  const SHIM_NEEDLE: Content :=
    [91, 112, 98, 45, 110, 118, 97, 112, 105, 45, 115, 104, 105, 109, 93]

  const READ_SIZE: nat := 1024 * 1024

  ghost predicate OccursAt(content: Content, needle: Content, i: nat) {
    i + |needle| <= |content| && content[i..i + |needle|] == needle
  }

  /** Some occurrence lies inside one read: it starts and ends in the same block. */
  ghost predicate OccursInOneRead(content: Content, needle: Content, size: nat)
    requires size > 0
  {
    exists i, block: nat :: OccursAt(content, needle, i) && InsideBlock(i, |needle|, block, size)
  }

  predicate InsideBlock(i: nat, length: nat, block: nat, size: nat) {
    block * size <= i && i + length <= (block + 1) * size
  }

  /** `needle in chunk`. */
  method ChunkContains(chunk: Content, needle: Content) returns (found: bool)
    ensures found <==> exists i :: OccursAt(chunk, needle, i)
  {
    var i := 0;
    while i + |needle| <= |chunk|
      invariant forall j | 0 <= j < i :: !OccursAt(chunk, needle, j)
    {
      if chunk[i..i + |needle|] == needle {
        assert OccursAt(chunk, needle, i);
        return true;
      }
      i := i + 1;
    }
    return false;
  }

  ghost predicate OccursWithin(content: Content, needle: Content, i: nat, start: nat, end: nat) {
    OccursAt(content, needle, i) && start <= i && i + |needle| <= end
  }

  lemma SliceOfSlice(content: Content, start: nat, end: nat, i: nat, length: nat)
    requires start <= end <= |content| && i + length <= end - start
    ensures content[start..end][i..i + length] == content[start + i..start + i + length]
  {
    var left, right := content[start..end][i..i + length], content[start + i..start + i + length];
    assert forall k | 0 <= k < length :: left[k] == right[k];
  }

  /** What one read sees. */
  lemma OccurrenceInChunk(content: Content, needle: Content, start: nat, end: nat)
    requires start <= end <= |content|
    ensures (exists i :: OccursAt(content[start..end], needle, i))
       <==> (exists i :: OccursWithin(content, needle, i, start, end))
  {
    var chunk := content[start..end];
    if exists i :: OccursAt(chunk, needle, i) {
      var i: nat :| OccursAt(chunk, needle, i);
      SliceOfSlice(content, start, end, i, |needle|);
      assert OccursWithin(content, needle, start + i, start, end);
    }
    if exists i :: OccursWithin(content, needle, i, start, end) {
      var i: nat :| OccursWithin(content, needle, i, start, end);
      SliceOfSlice(content, start, end, i - start, |needle|);
      assert OccursAt(chunk, needle, i - start);
    }
  }

  /** `_file_contains`: block by block, so it finds exactly the occurrences inside one block. */
  method FileContains(content: Content, needle: Content, size: nat) returns (found: bool)
    requires size > 0 && needle != []
    ensures found <==> OccursInOneRead(content, needle, size)
  {
    var offset := 0;
    ghost var block: nat := 0;
    while offset < |content|
      invariant offset == if block * size <= |content| then block * size else |content|
      invariant forall i: nat, b: nat | b < block && OccursAt(content, needle, i) ::
        !InsideBlock(i, |needle|, b, size)
      decreases |content| - offset
    {
      var end := if offset + size <= |content| then offset + size else |content|;
      assert (block + 1) * size == block * size + size;
      OccurrenceInChunk(content, needle, offset, end);
      var inside := ChunkContains(content[offset..end], needle);
      if inside {
        ghost var i: nat :| OccursWithin(content, needle, i, offset, end);
        assert InsideBlock(i, |needle|, block, size);
        return true;
      }
      forall i: nat | OccursAt(content, needle, i) ensures !InsideBlock(i, |needle|, block, size) {
        assert !OccursWithin(content, needle, i, offset, end);
      }
      offset := end;
      block := block + 1;
    }
    forall i: nat, b: nat | OccursAt(content, needle, i) && b >= block
      ensures !InsideBlock(i, |needle|, b, size)
    {
      assert b * size >= block * size;
    }
    return false;
  }

  ghost predicate IsShim(content: Content) {
    OccursInOneRead(content, SHIM_NEEDLE, READ_SIZE)
  }

  /** The banner's text stands at `i`. */
  ghost predicate BannerAt(content: Content, i: nat) {
    var banner := "[pb-nvapi-shim]";
    i + |banner| <= |content| && forall k | 0 <= k < |banner| :: content[i + k] == banner[k] as int
  }

  lemma BannerIsNeedle(content: Content, i: nat)
    ensures BannerAt(content, i) <==> OccursAt(content, SHIM_NEEDLE, i)
  {
    var banner := "[pb-nvapi-shim]";
    assert forall k | 0 <= k < |banner| :: SHIM_NEEDLE[k] == banner[k] as int;
    if i + |banner| <= |content| {
      var slice := content[i..i + |banner|];
      assert forall k | 0 <= k < |banner| :: slice[k] == content[i + k];
    }
  }

  /** A file is taken for the shim exactly when the banner stands inside one read of a mebibyte. */
  lemma ShimHasBanner(content: Content)
    ensures IsShim(content) <==> exists i: nat :: BannerAt(content, i) && i % 1048576 <= 1048576 - 15
  {
    if IsShim(content) {
      var i: nat, block: nat :| OccursAt(content, SHIM_NEEDLE, i) && InsideBlock(i, |SHIM_NEEDLE|, block, READ_SIZE);
      BannerIsNeedle(content, i);
      assert i % 1048576 == i - block * 1048576;
    }
    if i: nat :| BannerAt(content, i) && i % 1048576 <= 1048576 - 15 {
      BannerIsNeedle(content, i);
      assert InsideBlock(i, |SHIM_NEEDLE|, i / 1048576, READ_SIZE);
    }
  }

  /** The check is not a plain substring test: a banner across a read boundary goes unseen. */
  lemma BannerAcrossReadsIsMissed(lead: Content)
    requires |lead| == 1048575
    requires forall i | 0 <= i < |lead| :: lead[i] != SHIM_NEEDLE[0]
    ensures OccursAt(lead + SHIM_NEEDLE, SHIM_NEEDLE, |lead|)
    ensures !IsShim(lead + SHIM_NEEDLE)
  {
    var content := lead + SHIM_NEEDLE;
    assert content[|lead|..|lead| + |SHIM_NEEDLE|] == SHIM_NEEDLE;
    forall i: nat, block: nat | OccursAt(content, SHIM_NEEDLE, i)
      ensures !InsideBlock(i, |SHIM_NEEDLE|, block, READ_SIZE)
    {
      assert content[i] == content[i..i + |SHIM_NEEDLE|][0] == SHIM_NEEDLE[0];
      assert i == |lead|;
    }
  }

  // ---------------------------------------------------------------------------
  // The host: files, register, and what each prefix's process is about to do
  // ---------------------------------------------------------------------------

  /** The next file operation of the one process working on a prefix. */
  datatype Pc =
    | Idle
    | RefreshRecord            // deploy found the shim: record the prefix again
    | RefreshCheckSidecar      // ... give up unless the forward target is there
    | RefreshInstall           // ... install the current build
    | ParkRecord               // deploy found a settled stock DLL: record the prefix first
    | ParkRead                 // ... read the stock DLL
    | ParkReplace(parked: Content)  // ... put it in place as the sidecar
    | ParkInstall              // ... install the shim
    | RestoreChoose            // restore found a sidecar: is its copy still needed?
    | RestoreRead              // ... read it back
    | RestoreReplace(saved: Content)  // ... put it in place
    | RestoreUnlink            // ... drop the sidecar
    | RestoreForget            // ... drop the register entry
    | SweepForget              // the cleanup pass saw no sidecar: drop the entry

  datatype Host = Host(nvapi: map<Path, Content>, sidecar: map<Path, Content>, register: seq<Path>,
                       pc: map<Path, Pc>)

  function PcOf(h: Host, p: Path): Pc {
    if p in h.pc then h.pc[p] else Idle
  }

  /** `remember_fronted_prefix`, once the lock is held and the register readable. */
  function Remembered(register: seq<Path>, p: Path): seq<Path> {
    if p in register then register else register + [p]
  }

  /** `forget_fronted_prefix`, likewise. */
  function Forgotten(register: seq<Path>, p: Path): (rest: seq<Path>)
    ensures p !in rest
    ensures forall q | q != p :: q in rest <==> q in register
    ensures p !in register ==> rest == register
  {
    if register == [] then []
    else
      var rest := Forgotten(register[1..], p);
      if register[0] == p then rest else [register[0]] + rest
  }

  /** What can happen next: a process starts, moves on, or dies; Proton touches the DLL. */
  datatype Action =
    | StartDeploy(p: Path)
    | StartRestore(p: Path)
    | StartSweep(p: Path)
    | Advance(p: Path)
    | Crash(p: Path)          // also: any OSError, or a register that cannot be read or written
    | ProtonRemove(p: Path)
    | ProtonWrite(p: Path, stock: Content)

  /** One step.  `artifact` is the built shim.  Operations on one prefix do not overlap;
      those on different prefixes, and Proton's, interleave freely. */
  ghost function Act(h: Host, a: Action, artifact: Content): Host {
    match a
    case StartDeploy(p) =>
      if !PcOf(h, p).Idle? || p !in h.nvapi then h
      else h.(pc := h.pc[p := if IsShim(h.nvapi[p]) then RefreshRecord else ParkRecord])
    case StartRestore(p) =>
      if !PcOf(h, p).Idle? || p !in h.sidecar then h else h.(pc := h.pc[p := RestoreChoose])
    case StartSweep(p) =>
      if !PcOf(h, p).Idle? || p in h.sidecar then h else h.(pc := h.pc[p := SweepForget])
    case Advance(p) => Advanced(h, p, artifact)
    case Crash(p) => h.(pc := h.pc[p := Idle])
    case ProtonRemove(p) => h.(nvapi := h.nvapi - {p})
    case ProtonWrite(p, stock) => if IsShim(stock) then h else h.(nvapi := h.nvapi[p := stock])
  }

  ghost function Advanced(h: Host, p: Path, artifact: Content): Host {
    match PcOf(h, p)
    case Idle => h
    case RefreshRecord =>
      h.(register := Remembered(h.register, p), pc := h.pc[p := RefreshCheckSidecar])
    case RefreshCheckSidecar => h.(pc := h.pc[p := if p in h.sidecar then RefreshInstall else Idle])
    case RefreshInstall =>
      // an identical build is left alone, which comes to the same
      h.(nvapi := h.nvapi[p := artifact], pc := h.pc[p := Idle])
    case ParkRecord => h.(register := Remembered(h.register, p), pc := h.pc[p := ParkRead])
    case ParkRead =>
      h.(pc := h.pc[p := if p in h.nvapi then ParkReplace(h.nvapi[p]) else Idle])
    case ParkReplace(parked) => h.(sidecar := h.sidecar[p := parked], pc := h.pc[p := ParkInstall])
    case ParkInstall => h.(nvapi := h.nvapi[p := artifact], pc := h.pc[p := Idle])
    case RestoreChoose =>
      h.(pc := h.pc[p := if p !in h.nvapi || IsShim(h.nvapi[p]) then RestoreRead else RestoreUnlink])
    case RestoreRead =>
      h.(pc := h.pc[p := if p in h.sidecar then RestoreReplace(h.sidecar[p]) else Idle])
    case RestoreReplace(saved) => h.(nvapi := h.nvapi[p := saved], pc := h.pc[p := RestoreUnlink])
    case RestoreUnlink => h.(sidecar := h.sidecar - {p}, pc := h.pc[p := RestoreForget])
    case RestoreForget => h.(register := Forgotten(h.register, p), pc := h.pc[p := Idle])
    case SweepForget => h.(register := Forgotten(h.register, p), pc := h.pc[p := Idle])
  }

  ghost function Play(h: Host, actions: seq<Action>, artifact: Content): Host
    decreases |actions|
  {
    if actions == [] then h else Play(Act(h, actions[0], artifact), actions[1..], artifact)
  }

  // ---------------------------------------------------------------------------
  // What every run keeps
  // ---------------------------------------------------------------------------

  ghost predicate Fronted(h: Host, p: Path) {
    p in h.nvapi && IsShim(h.nvapi[p])
  }

  /** An active shim has a forward target, a forward target is never the shim itself, and
      a prefix carrying either can be found by the cleanup. */
  ghost predicate SafePrefix(h: Host, p: Path) {
    && (Fronted(h, p) ==> p in h.sidecar)
    && (p in h.sidecar ==> !IsShim(h.sidecar[p]))
    && (Fronted(h, p) || p in h.sidecar ==> p in h.register)
  }

  /** What the process on `p` may rely on at its next operation. */
  ghost predicate SafePc(h: Host, p: Path) {
    match PcOf(h, p)
    case RefreshInstall => p in h.sidecar
    case ParkRead => p in h.register && !Fronted(h, p)
    case ParkReplace(parked) => p in h.register && !Fronted(h, p) && !IsShim(parked)
    case ParkInstall => p in h.sidecar
    case ParkRecord => !Fronted(h, p)
    case RestoreReplace(saved) => !IsShim(saved)
    case RestoreUnlink => !Fronted(h, p)
    case RestoreForget => !Fronted(h, p) && p !in h.sidecar
    case SweepForget => !Fronted(h, p) && p !in h.sidecar
    case _ => true
  }

  ghost predicate Safe(h: Host) {
    forall p :: SafePrefix(h, p) && SafePc(h, p)
  }

  /** Nothing that concerns `q` differs. */
  ghost predicate SameView(h: Host, h': Host, q: Path) {
    && (q in h'.nvapi <==> q in h.nvapi) && (q in h.nvapi ==> h'.nvapi[q] == h.nvapi[q])
    && (q in h'.sidecar <==> q in h.sidecar) && (q in h.sidecar ==> h'.sidecar[q] == h.sidecar[q])
    && (q in h'.register <==> q in h.register)
    && PcOf(h', q) == PcOf(h, q)
  }

  lemma SameViewKeepsSafe(h: Host, h': Host, q: Path)
    requires SafePrefix(h, q) && SafePc(h, q) && SameView(h, h', q)
    ensures SafePrefix(h', q) && SafePc(h', q)
  {
  }

  lemma AdvanceKeepsOtherDlls(h: Host, p: Path, artifact: Content, q: Path)
    requires q != p
    ensures var h' := Advanced(h, p, artifact);
      (q in h'.nvapi <==> q in h.nvapi) && (q in h.nvapi ==> h'.nvapi[q] == h.nvapi[q])
  {
  }

  lemma AdvanceKeepsOtherSidecars(h: Host, p: Path, artifact: Content, q: Path)
    requires q != p
    ensures var h' := Advanced(h, p, artifact);
      (q in h'.sidecar <==> q in h.sidecar) && (q in h.sidecar ==> h'.sidecar[q] == h.sidecar[q])
  {
  }

  lemma AdvanceKeepsOtherEntries(h: Host, p: Path, artifact: Content, q: Path)
    requires q != p
    ensures var h' := Advanced(h, p, artifact);
      (q in h'.register <==> q in h.register) && PcOf(h', q) == PcOf(h, q)
  {
  }

  lemma AdvanceKeepsOthers(h: Host, p: Path, artifact: Content, q: Path)
    requires q != p
    ensures SameView(h, Advanced(h, p, artifact), q)
  {
    AdvanceKeepsOtherDlls(h, p, artifact, q);
    AdvanceKeepsOtherSidecars(h, p, artifact, q);
    AdvanceKeepsOtherEntries(h, p, artifact, q);
  }

  lemma AdvanceKeepsSafeHere(h: Host, p: Path, artifact: Content)
    requires SafePrefix(h, p) && SafePc(h, p)
    ensures SafePrefix(Advanced(h, p, artifact), p) && SafePc(Advanced(h, p, artifact), p)
  {
  }

  lemma AdvanceKeepsSafe(h: Host, p: Path, artifact: Content)
    requires Safe(h)
    ensures Safe(Advanced(h, p, artifact))
  {
    var h' := Advanced(h, p, artifact);
    forall q ensures SafePrefix(h', q) && SafePc(h', q) {
      assert SafePrefix(h, q) && SafePc(h, q);
      if q == p {
        AdvanceKeepsSafeHere(h, p, artifact);
      } else {
        AdvanceKeepsOthers(h, p, artifact, q);
        SameViewKeepsSafe(h, h', q);
      }
    }
  }

  /** An action touches the files and the process of its own prefix only. */
  lemma ActKeepsOthers(h: Host, a: Action, artifact: Content, q: Path)
    requires q != a.p
    ensures SameView(h, Act(h, a, artifact), q)
  {
    if a.Advance? {
      AdvanceKeepsOthers(h, a.p, artifact, q);
    }
  }

  /** Proton removes or writes the DLL and leaves sidecar, register and process alone; and no operation
      starts on a prefix while another one is under way there. */
  lemma ActionsAre(h: Host, p: Path, stock: Content, artifact: Content)
    ensures var removed := Act(h, ProtonRemove(p), artifact);
      p !in removed.nvapi && SameView(removed, h.(nvapi := h.nvapi - {p}), p)
    ensures var written := Act(h, ProtonWrite(p, stock), artifact);
      SameView(written, if IsShim(stock) then h else h.(nvapi := h.nvapi[p := stock]), p)
    ensures !PcOf(h, p).Idle? ==>
      Act(h, StartDeploy(p), artifact) == Act(h, StartRestore(p), artifact) == Act(h, StartSweep(p), artifact) == h
  {
  }

  /** The DLLs a prefix has, apart from the shim: in place, parked, or held by its process between
      reading and writing. */
  ghost predicate Holds(h: Host, p: Path, c: Content) {
    || (p in h.nvapi && h.nvapi[p] == c && !IsShim(c))
    || (p in h.sidecar && h.sidecar[p] == c)
    || PcOf(h, p) == ParkReplace(c)
    || PcOf(h, p) == RestoreReplace(c)
  }

  /** The only step that brings a DLL to a prefix is Proton's. */
  lemma StepInventsNoDll(h: Host, a: Action, artifact: Content, p: Path, c: Content)
    requires Safe(h) && IsShim(artifact) && Holds(Act(h, a, artifact), p, c)
    ensures Holds(h, p, c) || (a == ProtonWrite(p, c) && !IsShim(c))
  {
    assert SafePrefix(h, p) && SafePc(h, p);
    if a.Advance? && a.p != p {
      AdvanceKeepsOthers(h, a.p, artifact, p);
    }
  }

  /** One step keeps every prefix safe, and makes up no DLL. */
  lemma StepKeepsSafe(h: Host, a: Action, artifact: Content)
    requires Safe(h)
    ensures Safe(Act(h, a, artifact))
    ensures IsShim(artifact) ==>
      forall p, c | Holds(Act(h, a, artifact), p, c) :: Holds(h, p, c) || (a == ProtonWrite(p, c) && !IsShim(c))
  {
    if IsShim(artifact) {
      forall p, c | Holds(Act(h, a, artifact), p, c)
        ensures Holds(h, p, c) || (a == ProtonWrite(p, c) && !IsShim(c))
      {
        StepInventsNoDll(h, a, artifact, p, c);
      }
    }
    if a.Advance? {
      AdvanceKeepsSafe(h, a.p, artifact);
    } else {
      var h' := Act(h, a, artifact);
      forall q ensures SafePrefix(h', q) && SafePc(h', q) {
        assert SafePrefix(h, q) && SafePc(h, q);
      }
    }
  }

  /** A host nothing was ever deployed on. */
  ghost predicate Untouched(h: Host) {
    && h.sidecar == map[]
    && (forall p | p in h.nvapi :: !IsShim(h.nvapi[p]))
    && (forall p :: PcOf(h, p).Idle?)
  }

  lemma UntouchedIsSafe(h: Host)
    requires Untouched(h)
    ensures Safe(h)
  {
    forall p ensures SafePrefix(h, p) && SafePc(h, p) {
      assert PcOf(h, p).Idle?;
    }
  }

  /** The prefix had the DLL at the start, or Proton wrote it in the run. */
  ghost predicate Genuine(h: Host, actions: seq<Action>, p: Path, c: Content) {
    Holds(h, p, c) || (ProtonWrite(p, c) in actions && !IsShim(c))
  }

  /** Safety of every run, crashes and Proton included: every prefix stays safe, and each DLL in
      place, parked or on its way is one the prefix had at the start or one Proton wrote to it. */
  lemma {:induction false} EveryRunIsSafe(h: Host, actions: seq<Action>, artifact: Content)
    requires Safe(h)
    ensures Safe(Play(h, actions, artifact))
    ensures IsShim(artifact) ==>
      forall p, c | Holds(Play(h, actions, artifact), p, c) :: Genuine(h, actions, p, c)
    decreases |actions|
  {
    if actions != [] {
      var next := Act(h, actions[0], artifact);
      StepKeepsSafe(h, actions[0], artifact);
      EveryRunIsSafe(next, actions[1..], artifact);
      if IsShim(artifact) {
        forall p, c | Holds(Play(h, actions, artifact), p, c) ensures Genuine(h, actions, p, c) {
          assert Genuine(next, actions[1..], p, c);
        }
      }
    }
  }

  // ---------------------------------------------------------------------------
  // Undisturbed deploy and restore
  // ---------------------------------------------------------------------------

  /** What `deploy_nvapi_shim` leaves when nothing interferes.  `settled`: the stock DLL has
      stopped changing; `recordable`: the register could be read and written. */
  ghost function Deployed(h: Host, p: Path, artifact: Content, settled: bool, recordable: bool): Host {
    if p !in h.nvapi || !recordable then h
    else if IsShim(h.nvapi[p]) then
      var recorded := h.(register := Remembered(h.register, p));
      if p in h.sidecar then recorded.(nvapi := h.nvapi[p := artifact]) else recorded
    else if !settled then h
    else h.(nvapi := h.nvapi[p := artifact], sidecar := h.sidecar[p := h.nvapi[p]],
            register := Remembered(h.register, p))
  }

  /** What `restore_nvapi_shim` leaves when nothing interferes. */
  ghost function Restored(h: Host, p: Path): Host {
    if p !in h.sidecar then h
    else
      h.(nvapi := if p !in h.nvapi || IsShim(h.nvapi[p]) then h.nvapi[p := h.sidecar[p]] else h.nvapi,
         sidecar := h.sidecar - {p}, register := Forgotten(h.register, p))
  }

  ghost predicate SameFiles(h: Host, h': Host) {
    h.nvapi == h'.nvapi && h.sidecar == h'.sidecar && h.register == h'.register
  }

  /** Some run leads from `h` to the files of `h'`. */
  ghost predicate Reaches(h: Host, h': Host, artifact: Content) {
    exists actions :: SameFiles(Play(h, actions, artifact), h')
  }

  lemma ReachesItself(h: Host, artifact: Content)
    ensures Reaches(h, h, artifact)
  {
    assert SameFiles(Play(h, [], artifact), h);
  }

  lemma ReachesThrough(h: Host, a: Action, h': Host, artifact: Content)
    requires Reaches(Act(h, a, artifact), h', artifact)
    ensures Reaches(h, h', artifact)
  {
    var actions :| SameFiles(Play(Act(h, a, artifact), actions, artifact), h');
    assert ([a] + actions)[1..] == actions;
    assert SameFiles(Play(h, [a] + actions, artifact), h');
  }

  /** Letting the process on `p` run for `steps` operations. */
  ghost function Driven(h: Host, p: Path, artifact: Content, steps: nat): Host
    decreases steps
  {
    if steps == 0 then h else Driven(Advanced(h, p, artifact), p, artifact, steps - 1)
  }

  lemma {:induction false} DrivenIsARun(h: Host, p: Path, artifact: Content, steps: nat)
    ensures Reaches(h, Driven(h, p, artifact, steps), artifact)
    decreases steps
  {
    if steps == 0 {
      ReachesItself(h, artifact);
    } else {
      DrivenIsARun(Advanced(h, p, artifact), p, artifact, steps - 1);
      ReachesThrough(h, Advance(p), Driven(h, p, artifact, steps), artifact);
    }
  }

  lemma ParkingRun(h: Host, p: Path, artifact: Content)
    requires PcOf(h, p) == ParkRecord && p in h.nvapi
    ensures SameFiles(Driven(h, p, artifact, 4),
                      h.(nvapi := h.nvapi[p := artifact], sidecar := h.sidecar[p := h.nvapi[p]],
                         register := Remembered(h.register, p)))
  {
    var h1 := Advanced(h, p, artifact);
    var h2 := Advanced(h1, p, artifact);
    assert PcOf(h2, p) == ParkReplace(h.nvapi[p]);
    var h3 := Advanced(h2, p, artifact);
    var h4 := Advanced(h3, p, artifact);
    assert Driven(h, p, artifact, 4) == Driven(h1, p, artifact, 3) == Driven(h2, p, artifact, 2)
        == Driven(h3, p, artifact, 1) == Driven(h4, p, artifact, 0) == h4;
  }

  lemma RefreshingRun(h: Host, p: Path, artifact: Content)
    requires PcOf(h, p) == RefreshRecord
    ensures var recorded := h.(register := Remembered(h.register, p));
      SameFiles(Driven(h, p, artifact, 3),
                if p in h.sidecar then recorded.(nvapi := h.nvapi[p := artifact]) else recorded)
  {
    var h1 := Advanced(h, p, artifact);
    var h2 := Advanced(h1, p, artifact);
    assert Driven(h, p, artifact, 3) == Driven(h2, p, artifact, 1) == Advanced(h2, p, artifact);
  }

  lemma RestoringRun(h: Host, p: Path, artifact: Content)
    requires PcOf(h, p) == RestoreChoose && p in h.sidecar
    ensures SameFiles(Driven(h, p, artifact, 5), Restored(h, p))
  {
    var h1 := Advanced(h, p, artifact);
    var h2 := Advanced(h1, p, artifact);
    var h3 := Advanced(h2, p, artifact);
    var h4 := Advanced(h3, p, artifact);
    var h5 := Advanced(h4, p, artifact);
    assert Driven(h, p, artifact, 5) == Driven(h1, p, artifact, 4) == Driven(h2, p, artifact, 3)
        == Driven(h3, p, artifact, 2) == Driven(h4, p, artifact, 1) == Driven(h5, p, artifact, 0) == h5;
    if p !in h.nvapi || IsShim(h.nvapi[p]) {
      assert PcOf(h2, p) == RestoreReplace(h.sidecar[p]);
      assert PcOf(h3, p) == RestoreUnlink;
    } else {
      assert PcOf(h3, p) == Idle;
    }
  }

  /** A deploy that gives up right after it started: its register cannot be read or written. */
  lemma GivingUpRun(h: Host, p: Path, artifact: Content)
    requires PcOf(h, p).Idle?
    ensures Reaches(h, h, artifact)
  {
    var started := Act(h, StartDeploy(p), artifact);
    var stopped := Act(started, Crash(p), artifact);
    ReachesItself(stopped, artifact);
    assert SameFiles(Play(stopped, [], artifact), h);
    ReachesThrough(started, Crash(p), h, artifact);
    ReachesThrough(h, StartDeploy(p), h, artifact);
  }

  /** The deploy nothing interferes with is a run of the protocol, also when the DLL still changes or
      the register fails. */
  lemma DeployedIsARun(h: Host, p: Path, artifact: Content, settled: bool, recordable: bool)
    requires PcOf(h, p).Idle?
    ensures Reaches(h, Deployed(h, p, artifact, settled, recordable), artifact)
  {
    if p !in h.nvapi || !recordable || (!settled && !IsShim(h.nvapi[p])) {
      GivingUpRun(h, p, artifact);
    } else {
      var started := Act(h, StartDeploy(p), artifact);
      if IsShim(h.nvapi[p]) {
        RefreshingRun(started, p, artifact);
        DrivenIsARun(started, p, artifact, 3);
      } else {
        ParkingRun(started, p, artifact);
        DrivenIsARun(started, p, artifact, 4);
      }
      ReachesThrough(h, StartDeploy(p), Deployed(h, p, artifact, settled, recordable), artifact);
    }
  }

  /** Whatever the DLL and the register do, it keeps every prefix safe. */
  lemma DeployedKeepsSafe(h: Host, p: Path, artifact: Content, settled: bool, recordable: bool, q: Path)
    requires SafePrefix(h, q)
    ensures SafePrefix(Deployed(h, p, artifact, settled, recordable), q)
  {
  }

  /** So is the undisturbed restore. */
  lemma RestoredIsARun(h: Host, p: Path, artifact: Content)
    requires PcOf(h, p).Idle?
    ensures Reaches(h, Restored(h, p), artifact)
  {
    if p !in h.sidecar {
      ReachesItself(h, artifact);
    } else {
      var started := Act(h, StartRestore(p), artifact);
      RestoringRun(started, p, artifact);
      DrivenIsARun(started, p, artifact, 5);
      ReachesThrough(h, StartRestore(p), Restored(h, p), artifact);
    }
  }

  /** And the cleanup's last look at a prefix without a sidecar. */
  lemma SweptIsARun(h: Host, p: Path, artifact: Content)
    requires PcOf(h, p).Idle? && p !in h.sidecar
    ensures Reaches(h, h.(register := Forgotten(h.register, p)), artifact)
  {
    var started := Act(h, StartSweep(p), artifact);
    var swept := Advanced(started, p, artifact);
    DrivenIsARun(started, p, artifact, 1);
    assert Driven(started, p, artifact, 1) == Driven(swept, p, artifact, 0) == swept;
    var actions :| SameFiles(Play(started, actions, artifact), swept);
    assert SameFiles(Play(started, actions, artifact), h.(register := Forgotten(h.register, p)));
    ReachesThrough(h, StartSweep(p), h.(register := Forgotten(h.register, p)), artifact);
  }

  /** Deploying twice is deploying once. */
  lemma DeployIsIdempotent(h: Host, p: Path, artifact: Content, settled: bool, recordable: bool)
    requires IsShim(artifact)
    ensures Deployed(Deployed(h, p, artifact, settled, recordable), p, artifact, settled, recordable)
         == Deployed(h, p, artifact, settled, recordable)
  {
  }

  /** On a stock prefix, restore undoes deploy exactly when the prefix was not in the register
      and had no left-over sidecar. */
  lemma RestoreUndoesDeploy(h: Host, p: Path, artifact: Content)
    requires IsShim(artifact) && p in h.nvapi && !IsShim(h.nvapi[p])
    ensures Restored(Deployed(h, p, artifact, true, true), p) == h
       <==> p !in h.register && p !in h.sidecar
    ensures Restored(Deployed(h, p, artifact, true, true), p).nvapi == h.nvapi
  {
    var after := Restored(Deployed(h, p, artifact, true, true), p);
    assert after.nvapi == h.nvapi;
    if p !in h.register && p !in h.sidecar {
      ForgetUndoesRemember(h.register, p);
      assert after.sidecar == h.sidecar;
    }
  }

  lemma {:induction false} ForgetUndoesRemember(register: seq<Path>, p: Path)
    requires p !in register
    ensures Forgotten(register + [p], p) == register
    decreases |register|
  {
    if register == [] {
      assert Forgotten([p], p) == Forgotten([p][1..], p);
    } else {
      assert (register + [p])[1..] == register[1..] + [p];
      ForgetUndoesRemember(register[1..], p);
    }
  }

  // ---------------------------------------------------------------------------
  // What an overlap breaks, and which rewrite is lost
  // ---------------------------------------------------------------------------

  /** How many steps the operation under way has left, at most. */
  function StepsLeft(pc: Pc): (n: nat)
    ensures n <= 5
  {
    match pc
    case Idle => 0
    case RefreshRecord => 3
    case RefreshCheckSidecar => 2
    case RefreshInstall => 1
    case ParkRecord => 4
    case ParkRead => 3
    case ParkReplace(_) => 2
    case ParkInstall => 1
    case RestoreChoose => 5
    case RestoreRead => 4
    case RestoreReplace(_) => 3
    case RestoreUnlink => 2
    case RestoreForget => 1
    case SweepForget => 1
  }

  /** The rest of the operation that is under way on `p`. */
  ghost function Ended(h: Host, p: Path, artifact: Content): Host {
    Driven(h, p, artifact, 5)
  }

  ghost function Installed(h: Host, p: Path, artifact: Content): Host {
    h.(nvapi := h.nvapi[p := artifact])
  }

  ghost function Parked(h: Host, p: Path, content: Content, artifact: Content): Host {
    Installed(h.(sidecar := h.sidecar[p := content]), p, artifact)
  }

  ghost function Dropped(h: Host, p: Path): Host {
    h.(sidecar := h.sidecar - {p}, register := Forgotten(h.register, p))
  }

  /** What the operation under way comes to, when nothing else happens. */
  ghost function Outcome(h: Host, p: Path, artifact: Content): Host {
    match PcOf(h, p)
    case Idle => h
    case RefreshRecord => Refreshed(h.(register := Remembered(h.register, p)), p, artifact)
    case RefreshCheckSidecar => Refreshed(h, p, artifact)
    case RefreshInstall => Installed(h, p, artifact)
    case ParkRecord =>
      var recorded := h.(register := Remembered(h.register, p));
      if p in h.nvapi then Parked(recorded, p, h.nvapi[p], artifact) else recorded
    case ParkRead => if p in h.nvapi then Parked(h, p, h.nvapi[p], artifact) else h
    case ParkReplace(content) => Parked(h, p, content, artifact)
    case ParkInstall => Installed(h, p, artifact)
    case RestoreChoose =>
      if p !in h.nvapi || IsShim(h.nvapi[p]) then PutBack(h, p) else Dropped(h, p)
    case RestoreRead => PutBack(h, p)
    case RestoreReplace(saved) => Dropped(h.(nvapi := h.nvapi[p := saved]), p)
    case RestoreUnlink => Dropped(h, p)
    case RestoreForget => h.(register := Forgotten(h.register, p))
    case SweepForget => h.(register := Forgotten(h.register, p))
  }

  ghost function Refreshed(h: Host, p: Path, artifact: Content): Host {
    if p in h.sidecar then Installed(h, p, artifact) else h
  }

  ghost function PutBack(h: Host, p: Path): Host {
    if p in h.sidecar then Dropped(h.(nvapi := h.nvapi[p := h.sidecar[p]]), p) else h
  }

  /** One step nearer to the end, the outcome is the same. */
  ghost predicate ComesNearer(h: Host, p: Path, artifact: Content) {
    var h' := Advanced(h, p, artifact);
    StepsLeft(PcOf(h', p)) < StepsLeft(PcOf(h, p)) && SameFiles(Outcome(h', p, artifact), Outcome(h, p, artifact))
  }

  lemma RefreshComesNearer(h: Host, p: Path, artifact: Content)
    requires PcOf(h, p).RefreshRecord? || PcOf(h, p).RefreshCheckSidecar? || PcOf(h, p).RefreshInstall?
    ensures ComesNearer(h, p, artifact)
  {
  }

  lemma ParkingComesNearer(h: Host, p: Path, artifact: Content)
    requires PcOf(h, p).ParkRecord? || PcOf(h, p).ParkRead? || PcOf(h, p).ParkReplace? || PcOf(h, p).ParkInstall?
    ensures ComesNearer(h, p, artifact)
  {
  }

  lemma RestoreComesNearer(h: Host, p: Path, artifact: Content)
    requires PcOf(h, p).RestoreChoose? || PcOf(h, p).RestoreRead? || PcOf(h, p).RestoreReplace?
    ensures ComesNearer(h, p, artifact)
  {
  }

  lemma CleaningComesNearer(h: Host, p: Path, artifact: Content)
    requires PcOf(h, p).RestoreUnlink? || PcOf(h, p).RestoreForget? || PcOf(h, p).SweepForget?
    ensures ComesNearer(h, p, artifact)
  {
  }

  lemma OutcomeStays(h: Host, p: Path, artifact: Content)
    requires !PcOf(h, p).Idle?
    ensures ComesNearer(h, p, artifact)
  {
    var pc := PcOf(h, p);
    if pc.RefreshRecord? || pc.RefreshCheckSidecar? || pc.RefreshInstall? {
      RefreshComesNearer(h, p, artifact);
    } else if pc.ParkRecord? || pc.ParkRead? || pc.ParkReplace? || pc.ParkInstall? {
      ParkingComesNearer(h, p, artifact);
    } else if pc.RestoreChoose? || pc.RestoreRead? || pc.RestoreReplace? {
      RestoreComesNearer(h, p, artifact);
    } else {
      CleaningComesNearer(h, p, artifact);
    }
  }

  /** Left alone, the operation under way ends, with that outcome. */
  lemma {:induction false} OperationComesTo(h: Host, p: Path, artifact: Content, steps: nat)
    requires StepsLeft(PcOf(h, p)) <= steps
    ensures SameFiles(Driven(h, p, artifact, steps), Outcome(h, p, artifact))
    ensures PcOf(Driven(h, p, artifact, steps), p).Idle?
    decreases steps
  {
    if PcOf(h, p).Idle? {
      IdleStays(h, p, artifact, steps);
    } else {
      OutcomeStays(h, p, artifact);
      OperationComesTo(Advanced(h, p, artifact), p, artifact, steps - 1);
    }
  }

  lemma {:induction false} IdleStays(h: Host, p: Path, artifact: Content, steps: nat)
    requires PcOf(h, p).Idle?
    ensures Driven(h, p, artifact, steps) == h
    decreases steps
  {
    if steps > 0 {
      IdleStays(h, p, artifact, steps - 1);
    }
  }

  /** An operation at this point does not survive another deploy of its prefix: it is about to park what
      is in place, or to drop the sidecar or the register entry. */
  predicate BreaksOnDeploy(pc: Pc) {
    pc.ParkRecord? || pc.ParkRead? || pc.RestoreUnlink? || pc.RestoreForget? || pc.SweepForget?
  }

  /** Why the operations on one prefix must not overlap: when a whole deploy of a stock DLL comes in
      between, the prefix is safe at the end exactly if the operation under way had not come to one of
      those points. */
  lemma OverlappingDeployIsSafeIff(h: Host, p: Path, artifact: Content)
    requires SafePrefix(h, p) && SafePc(h, p) && IsShim(artifact)
    requires p in h.nvapi && !IsShim(h.nvapi[p])
    ensures SafePrefix(Ended(Deployed(h, p, artifact, true, true), p, artifact), p) <==> !BreaksOnDeploy(PcOf(h, p))
  {
    OperationComesTo(Deployed(h, p, artifact, true, true), p, artifact, 5);
  }

  /** An operation at this point does not survive a restore of its prefix: it is about to install the shim,
      or has recorded the prefix for it already. */
  predicate BreaksOnRestore(pc: Pc) {
    pc.RefreshInstall? || pc.ParkRead? || pc.ParkReplace? || pc.ParkInstall?
  }

  /** Likewise when a whole restore comes in between, if there is anything for it to restore. */
  lemma OverlappingRestoreIsSafeIff(h: Host, p: Path, artifact: Content)
    requires SafePrefix(h, p) && SafePc(h, p) && IsShim(artifact)
    ensures SafePrefix(Ended(Restored(h, p), p, artifact), p) <==> p !in h.sidecar || !BreaksOnRestore(PcOf(h, p))
  {
    OperationComesTo(Restored(h, p), p, artifact, 5);
  }

  /** In particular a deploy that is about to read the stock DLL parks the shim instead. */
  lemma OverlappingDeploysParkTheShim(h: Host, p: Path, artifact: Content)
    requires IsShim(artifact) && PcOf(h, p) == ParkRead
    requires p in h.nvapi && !IsShim(h.nvapi[p])
    ensures var end := Driven(Deployed(h, p, artifact, true, true), p, artifact, 2);
      p in end.sidecar && IsShim(end.sidecar[p])
  {
    var other := Deployed(h, p, artifact, true, true);
    var read := Advanced(other, p, artifact);
    assert PcOf(read, p) == ParkReplace(artifact);
    var replaced := Advanced(read, p, artifact);
    assert Driven(other, p, artifact, 2) == Driven(read, p, artifact, 1) == Driven(replaced, p, artifact, 0);
  }

  /** An operation at this point overwrites a DLL that Proton writes now: it has read an older one, or
      has made up its mind to install the shim or the parked DLL. */
  predicate Overwrites(h: Host, p: Path, stock: Content) {
    match PcOf(h, p)
    case ParkReplace(parked) => parked != stock
    case ParkInstall => true
    case RefreshInstall => true
    case RefreshRecord => p in h.sidecar
    case RefreshCheckSidecar => p in h.sidecar
    case RestoreRead => p in h.sidecar
    case RestoreReplace(saved) => saved != stock
    case _ => false
  }

  /** A DLL that Proton writes, and that is not parked already, is gone once the operation under way has
      ended exactly if that operation was at one of those points. */
  lemma RewriteIsLostIff(h: Host, p: Path, stock: Content, artifact: Content)
    requires SafePrefix(h, p) && SafePc(h, p) && IsShim(artifact)
    requires !IsShim(stock) && !(p in h.sidecar && h.sidecar[p] == stock)
    ensures Holds(Ended(Act(h, ProtonWrite(p, stock), artifact), p, artifact), p, stock) <==> !Overwrites(h, p, stock)
  {
    var written := Act(h, ProtonWrite(p, stock), artifact);
    OperationComesTo(written, p, artifact, 5);
  }

  /** In particular a DLL written between the reading of the old one and the installing of the shim is
      overwritten: what is parked is the old one. */
  lemma RewriteWhileParkingIsLost(h: Host, p: Path, old': Content, stock: Content, artifact: Content)
    requires IsShim(artifact) && !IsShim(stock) && stock != old' && PcOf(h, p) == ParkReplace(old')
    ensures var end := Driven(Act(h, ProtonWrite(p, stock), artifact), p, artifact, 2);
            p in end.sidecar && end.sidecar[p] == old' && Fronted(end, p) && !Holds(end, p, stock)
  {
    var written := Act(h, ProtonWrite(p, stock), artifact);
    var parked := Advanced(written, p, artifact);
    assert Driven(written, p, artifact, 2) == Driven(parked, p, artifact, 1) == Advanced(parked, p, artifact);
  }

  /** Proton's rewrite is answered by parking Proton's own DLL and fronting it again. */
  lemma RefrontAfterRewrite(h: Host, p: Path, stock: Content, artifact: Content)
    requires IsShim(artifact) && !IsShim(stock)
    ensures var after := Deployed(Act(h, ProtonWrite(p, stock), artifact), p, artifact, true, true);
      Fronted(after, p) && after.sidecar == h.sidecar[p := stock] && p in after.register
  {
  }

  // ---------------------------------------------------------------------------
  // The operations
  // ---------------------------------------------------------------------------

  ghost predicate SameDll(before: Host, after: Host, p: Path) {
    && (p in after.nvapi <==> p in before.nvapi)
    && (p in after.nvapi ==> after.nvapi[p] == before.nvapi[p])
  }

  /** The parked DLL has to go back: the shim, or nothing, is in its place. */
  ghost predicate NeedsParked(h: Host, p: Path) {
    p in h.sidecar && (p !in h.nvapi || IsShim(h.nvapi[p]))
  }

  ghost predicate CleanedPrefix(before: Host, after: Host, p: Path, done: bool) {
    if done then
      && p !in after.sidecar
      && (if NeedsParked(before, p) then p in after.nvapi && after.nvapi[p] == before.sidecar[p]
          else SameDll(before, after, p))
    else
      && SameDll(before, after, p)
      && (p in after.sidecar <==> p in before.sidecar)
      && (p in after.sidecar ==> after.sidecar[p] == before.sidecar[p])
  }

  /** The prefixes in `done` are cleaned, the others are as before. */
  ghost predicate Cleaned(before: Host, after: Host, done: set<Path>) {
    forall p :: CleanedPrefix(before, after, p, p in done)
  }

  lemma CleaningOneMore(before: Host, h: Host, done: set<Path>, p: Path)
    requires Cleaned(before, h, done)
    ensures Cleaned(before, Restored(h, p), done + {p})
  {
    var after := Restored(h, p);
    forall q ensures CleanedPrefix(before, after, q, q in done + {p}) {
      assert CleanedPrefix(before, h, q, q in done);
    }
  }

  lemma NonEmptyHasMember(register: seq<Path>)
    ensures register != [] ==> exists p :: p in register
  {
    if register != [] {
      assert register[0] in register;
    }
  }

  class NvapiHost {
    const artifact: Content
    var nvapi: map<Path, Content>
    var sidecar: map<Path, Content>
    var register: seq<Path>

    ghost function State(): Host
      reads this
    {
      Host(nvapi, sidecar, register, map[])
    }

    constructor (artifact: Content, nvapi: map<Path, Content>, sidecar: map<Path, Content>, register: seq<Path>)
      ensures this.artifact == artifact && State() == Host(nvapi, sidecar, register, map[])
    {
      this.artifact := artifact;
      this.nvapi := nvapi;
      this.sidecar := sidecar;
      this.register := register;
    }

    /** `deploy_nvapi_shim`: whether the prefix is fronted when it returns. */
    method Deploy(p: Path, settled: bool, recordable: bool) returns (fronted: bool)
      modifies this
      ensures State() == Deployed(old(State()), p, artifact, settled, recordable)
      ensures fronted <==>
        && p in old(nvapi) && recordable
        && if IsShim(old(nvapi)[p]) then p in old(sidecar) else settled
      ensures fronted ==> nvapi == old(nvapi)[p := artifact] && p in sidecar && p in register
      ensures fronted ==>
        sidecar == if IsShim(old(nvapi)[p]) then old(sidecar) else old(sidecar)[p := old(nvapi)[p]]
      ensures !fronted ==> nvapi == old(nvapi) && sidecar == old(sidecar)
      ensures forall q | q != p :: q in register <==> q in old(register)
      ensures forall q | SafePrefix(old(State()), q) :: SafePrefix(State(), q)
    {
      if p !in nvapi {
        return false;
      }
      var shim := FileContains(nvapi[p], SHIM_NEEDLE, READ_SIZE);
      if shim {
        if !recordable {
          return false;
        }
        register := Remembered(register, p);
        if p !in sidecar {
          return false;
        }
        if nvapi[p] != artifact {
          nvapi := nvapi[p := artifact];
        }
        assert nvapi == old(nvapi)[p := artifact];
        return true;
      }
      if !settled || !recordable {
        return false;
      }
      register := Remembered(register, p);
      sidecar := sidecar[p := nvapi[p]];
      nvapi := nvapi[p := artifact];
      return true;
    }

    /** `restore_nvapi_shim`: whether it cleaned anything. */
    method Restore(p: Path) returns (cleaned: bool)
      modifies this
      ensures State() == Restored(old(State()), p)
      ensures cleaned <==> p in old(sidecar)
      ensures !cleaned ==> State() == old(State())
      ensures cleaned ==> p !in register && sidecar == old(sidecar) - {p}
      ensures cleaned ==>
        nvapi == if NeedsParked(old(State()), p) then old(nvapi)[p := old(sidecar)[p]] else old(nvapi)
      ensures forall q | SafePrefix(old(State()), q) :: SafePrefix(State(), q)
    {
      if p !in sidecar {
        return false;
      }
      var needed := true;
      if p in nvapi {
        needed := FileContains(nvapi[p], SHIM_NEEDLE, READ_SIZE);
      }
      if needed {
        nvapi := nvapi[p := sidecar[p]];
      }
      sidecar := sidecar - {p};
      register := Forgotten(register, p);
      return true;
    }

    /** `clean`, and for a register entry the check that follows it. */
    method Clean(p: Path, entry: bool, ghost before: Host, ghost done: set<Path>) returns (cleaned: bool)
      requires Cleaned(before, State(), done)
      modifies this
      ensures Cleaned(before, State(), done + {p})
      ensures forall q :: q in register ==> q in old(register)
      ensures entry ==> p !in register
      ensures cleaned <==> p in before.sidecar && p !in done
    {
      CleaningOneMore(before, State(), done, p);
      assert CleanedPrefix(before, State(), p, p in done);
      cleaned := Restore(p);
      assert CleanedPrefix(before, State(), p, true);
      if entry && p !in sidecar {
        register := Forgotten(register, p);
      }
      assert forall q :: CleanedPrefix(before, State(), q, q in done + {p});
    }

    /** The first half of `restore_all_nvapi_shims`: every entry of the register. */
    method CleanRegister() returns (restored: seq<Path>)
      modifies this
      ensures Cleaned(old(State()), State(), set p | p in old(register))
      ensures register == []
      ensures (set p | p in restored) == old(sidecar).Keys * set p | p in old(register)
    {
      restored := [];
      var entries := register;
      ghost var before := State();
      ghost var done: set<Path> := {};
      for i := 0 to |entries|
        invariant done == set p | p in entries[..i]
        invariant Cleaned(before, State(), done)
        invariant forall p :: p in register ==> p in entries[i..]
        invariant (set p | p in restored) == before.sidecar.Keys * done
      {
        var p := entries[i];
        var cleaned := Clean(p, true, before, done);
        ghost var already := set q | q in restored;
        if cleaned {
          restored := restored + [p];
          assert (set q | q in restored) == already + {p};
        }
        assert entries[i..] == [p] + entries[i + 1..];
        assert entries[..i + 1] == entries[..i] + [p];
        done := done + {p};
      }
      assert entries[..|entries|] == entries && entries[|entries|..] == [];
      NonEmptyHasMember(register);
    }

    /** `restore_all_nvapi_shims`: the register first, then whatever the launcher scan finds. */
    method RestoreAll(scanned: seq<Path>) returns (restored: seq<Path>)
      modifies this
      ensures Cleaned(old(State()), State(), (set p | p in old(register)) + set p | p in scanned)
      ensures register == []
      ensures (set p | p in restored)
           == old(sidecar).Keys * ((set p | p in old(register)) + set p | p in scanned)
    {
      ghost var before := State();
      ghost var entries := set p | p in register;
      restored := CleanRegister();
      ghost var done := entries;
      for i := 0 to |scanned|
        invariant done == entries + set p | p in scanned[..i]
        invariant Cleaned(before, State(), done)
        invariant register == []
        invariant (set p | p in restored) == before.sidecar.Keys * done
      {
        var p := scanned[i];
        var cleaned := Clean(p, false, before, done);
        ghost var already := set q | q in restored;
        if cleaned {
          restored := restored + [p];
          assert (set q | q in restored) == already + {p};
        }
        NonEmptyHasMember(register);
        assert scanned[..i + 1] == scanned[..i] + [p];
        done := done + {p};
      }
      assert scanned[..|scanned|] == scanned;
    }
  }

  /** After any run, a cleanup pass over the register leaves no prefix fronted and no sidecar
      behind: every DLL is the one in place, or else the one parked last; and it is one the prefix
      had at the start or one Proton wrote to it in the run. */
  lemma CleanupLeavesNothing(h: Host, actions: seq<Action>, artifact: Content, after: Host, scanned: set<Path>)
    requires Untouched(h)
    requires var end := Play(h, actions, artifact);
      Cleaned(end, after, (set p | p in end.register) + scanned)
    ensures forall p :: !Fronted(after, p) && p !in after.sidecar
    ensures var end := Play(h, actions, artifact);
      forall p | p in end.nvapi :: p in after.nvapi &&
        if Fronted(end, p) then p in end.sidecar && after.nvapi[p] == end.sidecar[p]
        else after.nvapi[p] == end.nvapi[p]
    ensures IsShim(artifact) ==> forall p | p in after.nvapi ::
      (p in h.nvapi && after.nvapi[p] == h.nvapi[p]) || ProtonWrite(p, after.nvapi[p]) in actions
  {
    var end := Play(h, actions, artifact);
    UntouchedIsSafe(h);
    EveryRunIsSafe(h, actions, artifact);
    forall p
      ensures !Fronted(after, p) && p !in after.sidecar
      ensures p in end.nvapi ==>
        (p in after.nvapi &&
         if Fronted(end, p) then p in end.sidecar && after.nvapi[p] == end.sidecar[p]
         else after.nvapi[p] == end.nvapi[p])
    {
      assert SafePrefix(end, p);
      assert CleanedPrefix(end, after, p, p in (set q | q in end.register) + scanned);
    }
    if IsShim(artifact) {
      forall p | p in after.nvapi
        ensures (p in h.nvapi && after.nvapi[p] == h.nvapi[p]) || ProtonWrite(p, after.nvapi[p]) in actions
      {
        assert SafePrefix(end, p) && PcOf(h, p).Idle?;
        assert CleanedPrefix(end, after, p, p in (set q | q in end.register) + scanned);
        assert Holds(end, p, after.nvapi[p]);
        assert Genuine(h, actions, p, after.nvapi[p]);
      }
    }
  }
}
